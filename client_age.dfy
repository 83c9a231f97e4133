/** `calculateAge`, written identically in
    `client/src/components/Admin/content/useUserManagement.jsx` and
    `client/src/components/Admin/content/Editprofile.jsx`, on the fields a
    JavaScript `Date` reports. Parsing the birth date string and the local
    time zone are left to the caller. */
module ClientAge {
  import opened Wrappers
  import opened Models

  /** What `getFullYear()`, `getMonth()` (0 for January) and `getDate()` return. */
  datatype JsDate = JsDate(fullYear: int, month: int, date: int)

  /** The calendar date a `JsDate` stands for. */
  function ToDate(d: JsDate): Date {
    Date(d.fullYear, d.month + 1, d.date)
  }

  /** `calculateAge(birthDate)` with `today` for `new Date()`: the year
      difference, less one while this year's birthday has not come. It is
      the server's `User.age` for the same two dates. */
  method CalculateAge(birth: JsDate, today: JsDate) returns (age: int)
    ensures Some(age) == Age(Some(ToDate(birth)), ToDate(today))
    ensures DateLe(Anniversary(ToDate(birth), age), ToDate(today))
    ensures !DateLe(Anniversary(ToDate(birth), age + 1), ToDate(today))
  {
    age := today.fullYear - birth.fullYear;
    var monthDiff := today.month - birth.month;
    if monthDiff < 0 || (monthDiff == 0 && today.date < birth.date) {
      age := age - 1;
    }
    AgeIsCompletedYears(ToDate(birth), ToDate(today));
  }
}
