/** `client/src/components/Admin/content/useUserManagement.jsx`: the state
    of the admin's user table and its handlers. The API calls are
    parameters: the handlers receive what the awaited request resolved to,
    or that it was rejected. */
module UserManagement {
  import opened Wrappers
  import opened Seqs
  import opened JsValues

  datatype Order = Asc | Desc

  function OrderName(o: Order): string {
    if o == Asc then "asc" else "desc"
  }

  /** A row of the user list; `userId` is its `user_id`. */
  datatype UserRow = UserRow(userId: string, username: string, email: string)

  const FetchFailed: string := "Failed to fetch users. Please try again later."

  /** The order `handleSort(column)` sets when the table was sorted by
      `sortBy` in `order`. */
  function NextOrder(sortBy: string, order: Order, column: string): (o: Order)
    ensures o == Desc <==> sortBy == column && order == Asc
  {
    if sortBy == column && order == Asc then Desc else Asc
  }

  /** Clicking the same column flips between ascending and descending, and
      a new column always starts ascending. */
  lemma SortToggles(column: string, other: string, order: Order)
    requires other != column
    ensures NextOrder(column, NextOrder(column, order, column), column) != NextOrder(column, order, column)
    ensures NextOrder(other, order, column) == Asc
  {
  }

  /** `prevUsers.filter(user => user.user_id !== userId)`. */
  function WithoutUser(users: seq<UserRow>, userId: string): seq<UserRow> {
    Filter(users, (u: UserRow) => u.userId != userId)
  }

  /** The filter removes exactly the rows with that id and keeps every other
      row, as often as it occurs and in its order; with no such row the list
      is unchanged. */
  lemma WithoutUserExactly(users: seq<UserRow>, userId: string)
    ensures forall i :: 0 <= i < |WithoutUser(users, userId)| ==>
              WithoutUser(users, userId)[i].userId != userId && WithoutUser(users, userId)[i] in users
    ensures forall i :: 0 <= i < |users| && users[i].userId != userId ==> users[i] in WithoutUser(users, userId)
    ensures IsSubsequence(WithoutUser(users, userId), users)
    ensures (forall i :: 0 <= i < |users| ==> users[i].userId != userId) ==> WithoutUser(users, userId) == users
    ensures forall u :: multiset(WithoutUser(users, userId))[u] == if u.userId != userId then multiset(users)[u] else 0
  {
    FilterIsSubsequence(users, (u: UserRow) => u.userId != userId);
    FilterCounts(users, (u: UserRow) => u.userId != userId);
    if forall i :: 0 <= i < |users| ==> users[i].userId != userId {
      FilterAll(users, (u: UserRow) => u.userId != userId);
    }
  }

  class UserManagement {
    var users: seq<UserRow>
    var loading: bool
    var error: Option<string>
    var totalUsers: int
    var page: int
    var rowsPerPage: Number
    var sortBy: string
    var order: Order

    /** The initial `useState` values. */
    constructor ()
      ensures users == [] && loading && error == None && totalUsers == 0 && page == 0
      ensures rowsPerPage == Num(10) && sortBy == "username" && order == Asc
    {
      users := [];
      loading := true;
      error := None;
      totalUsers := 0;
      page := 0;
      rowsPerPage := Num(10);
      sortBy := "username";
      order := Asc;
    }

    /** The argument of `advancedSearchUsers`: the search parameters, with
        the one-based page, the page size and the sort settings written over
        any keys of the same name. */
    function FetchParams(searchParams: map<string, JsValue>): (r: map<string, JsValue>)
      reads this
      ensures r.Keys == searchParams.Keys + {"page", "perPage", "sortBy", "order"}
      ensures r["page"] == JNum(Num(page + 1)) && r["perPage"] == JNum(rowsPerPage)
      ensures r["sortBy"] == JStr(sortBy) && r["order"] == JStr(OrderName(order))
      ensures forall k :: k in searchParams && k != "page" && k != "perPage" && k != "sortBy" && k != "order" ==>
                r[k] == searchParams[k]
    {
      searchParams["page" := JNum(Num(page + 1))]["perPage" := JNum(rowsPerPage)]
                  ["sortBy" := JStr(sortBy)]["order" := JStr(OrderName(order))]
    }

    /** `fetchUsers`, given what the request returned: the users and total
        on success, the error message on failure, and never left loading. */
    method FetchUsers(response: Result<(seq<UserRow>, int), string>)
      modifies this`users, this`totalUsers, this`error, this`loading
      ensures !loading
      ensures response.Success? ==> users == response.value.0 && totalUsers == response.value.1 && error == None
      ensures response.Failure? ==>
                users == old(users) && totalUsers == old(totalUsers) && error == Some(FetchFailed)
    {
      loading := true;
      error := None;
      if response.Success? {
        users := response.value.0;
        totalUsers := response.value.1;
      } else {
        error := Some(FetchFailed);
      }
      loading := false;
    }

    method HandleChangePage(newPage: int)
      modifies this`page
      ensures page == newPage
    {
      page := newPage;
    }

    /** `handleChangeRowsPerPage`: the parsed page size, back to the first page. */
    method HandleChangeRowsPerPage(value: string)
      modifies this`rowsPerPage, this`page
      ensures rowsPerPage == ParseInt(value) && page == 0
    {
      rowsPerPage := ParseInt(value);
      page := 0;
    }

    method HandleSort(column: string)
      modifies this`sortBy, this`order
      ensures sortBy == column
      ensures order == NextOrder(old(sortBy), old(order), column)
    {
      order := NextOrder(sortBy, order, column);
      sortBy := column;
    }

    /** `handleDeleteUser`: the row goes only once the API call succeeded. */
    method HandleDeleteUser(userId: string, deleted: bool)
      modifies this`users
      ensures users == if deleted then WithoutUser(old(users), userId) else old(users)
    {
      if deleted {
        users := WithoutUser(users, userId);
      }
    }
  }
}
