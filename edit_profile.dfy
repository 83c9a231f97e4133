/** `client/src/components/Admin/content/Editprofile.jsx`: the form state of
    the admin's profile editor. Each handler passes React an updater
    `prevData => ({...prevData, ...})`; the updaters are the functions below
    and the handlers the methods that apply them. The `getUserDetails`
    request is a parameter, given as what it resolved to or that it was
    rejected. Its `calculateAge` is `ClientAge.CalculateAge`. */
module EditProfile {
  import opened Wrappers
  import opened JsValues

  const FetchFailed: string := "Failed to fetch user details. Please try again later."

  /** The `useState` default of `userData`: empty texts, an active user and an
      empty profile. */
  function InitialUserData(): (v: JsValue)
    ensures v.JObj? && "is_active" in v.fields && v.fields["is_active"] == JBool(true)
    ensures "profile" in v.fields && v.fields["profile"].JObj?
  {
    JObj(map[
      "username" := JStr(""), "email" := JStr(""), "is_active" := JBool(true), "gender" := JStr(""),
      "birth_date" := JStr(""), "created_at" := JStr(""), "updated_at" := JStr(""),
      "profile" := JObj(map[
        "firstname" := JStr(""), "lastname" := JStr(""), "country" := JStr(""), "state" := JStr(""),
        "phone_number" := JStr(""), "last_login" := JStr("")])])
  }

  /** `{...prev, [name]: value}`. */
  function WithField(prev: JsValue, name: string, value: JsValue): (r: JsValue)
    ensures r.JObj?
    ensures r.fields.Keys == SpreadFields(prev).Keys + {name}
    ensures r.fields[name] == value
    ensures forall k :: k in SpreadFields(prev) && k != name ==> r.fields[k] == SpreadFields(prev)[k]
  {
    JObj(SpreadFields(prev)[name := value])
  }

  /** The updater of `handleChange`: the input's `name` gets its text. */
  function ChangeField(prev: JsValue, name: string, value: string): JsValue {
    WithField(prev, name, JStr(value))
  }

  /** The `profile` that `prevData.profile` reads: `undefined`, which spreads
      like `null`, when there is none. */
  function ProfileOf(prev: JsValue): JsValue {
    var fields := SpreadFields(prev);
    if "profile" in fields then fields["profile"] else JNull
  }

  /** The updater of `handleProfileChange`: `name` is set inside a copy of
      the profile. */
  function ChangeProfileField(prev: JsValue, name: string, value: string): JsValue {
    WithField(prev, "profile", WithField(ProfileOf(prev), name, JStr(value)))
  }

  /** The updater of `handleCheckboxChange`. */
  function ChangeActive(prev: JsValue, checked: bool): JsValue {
    WithField(prev, "is_active", JBool(checked))
  }

  /** `handleChange` sets the named field and keeps every other one,
      `profile` included unless that is the name. */
  lemma ChangeFieldOnly(prev: JsValue, name: string, value: string)
    ensures ChangeField(prev, name, value).fields[name] == JStr(value)
    ensures ChangeField(prev, name, value).fields.Keys == SpreadFields(prev).Keys + {name}
    ensures forall k :: k in SpreadFields(prev) && k != name ==> ChangeField(prev, name, value).fields[k] == SpreadFields(prev)[k]
    ensures name != "profile" ==> ProfileOf(ChangeField(prev, name, value)) == ProfileOf(prev)
  {
  }

  /** `handleProfileChange` sets the named profile field and keeps the
      other profile fields and every top-level field but `profile`. */
  lemma ChangeProfileFieldOnly(prev: JsValue, name: string, value: string)
    ensures ChangeProfileField(prev, name, value).fields.Keys == SpreadFields(prev).Keys + {"profile"}
    ensures forall k :: k in SpreadFields(prev) && k != "profile" ==>
              ChangeProfileField(prev, name, value).fields[k] == SpreadFields(prev)[k]
    ensures SpreadFields(ProfileOf(ChangeProfileField(prev, name, value))).Keys == SpreadFields(ProfileOf(prev)).Keys + {name}
    ensures SpreadFields(ProfileOf(ChangeProfileField(prev, name, value)))[name] == JStr(value)
    ensures forall k :: k in SpreadFields(ProfileOf(prev)) && k != name ==>
              SpreadFields(ProfileOf(ChangeProfileField(prev, name, value)))[k] == SpreadFields(ProfileOf(prev))[k]
  {
  }

  /** `handleCheckboxChange` sets `is_active` and keeps every other field. */
  lemma ChangeActiveOnly(prev: JsValue, checked: bool)
    ensures ChangeActive(prev, checked).fields.Keys == SpreadFields(prev).Keys + {"is_active"}
    ensures ChangeActive(prev, checked).fields["is_active"] == JBool(checked)
    ensures forall k :: k in SpreadFields(prev) && k != "is_active" ==> ChangeActive(prev, checked).fields[k] == SpreadFields(prev)[k]
    ensures ProfileOf(ChangeActive(prev, checked)) == ProfileOf(prev)
  {
  }

  /** Editing one field twice keeps only the later text, and edits of two
      different fields may happen in either order. */
  lemma {:induction false} ChangesCompose(prev: JsValue, a: string, b: string, va: string, vb: string)
    ensures ChangeField(ChangeField(prev, a, va), a, vb) == ChangeField(prev, a, vb)
    ensures a != b ==> ChangeField(ChangeField(prev, a, va), b, vb) == ChangeField(ChangeField(prev, b, vb), a, va)
  {
    var m := SpreadFields(prev);
    assert m[a := JStr(va)][a := JStr(vb)] == m[a := JStr(vb)];
    if a != b {
      assert m[a := JStr(va)][b := JStr(vb)] == m[b := JStr(vb)][a := JStr(va)];
    }
  }

  /** A form whose data is an object keeps exactly its fields under an edit
      of one of them. */
  lemma ChangeKeepsShape(prev: map<string, JsValue>, name: string, value: string)
    requires name in prev
    ensures ChangeField(JObj(prev), name, value) == JObj(prev[name := JStr(value)])
    ensures ChangeField(JObj(prev), name, value).fields.Keys == prev.Keys
  {
  }

  class EditProfile {
    var userData: JsValue
    var loading: bool
    var error: Option<string>

    /** The initial `useState` values. */
    constructor ()
      ensures userData == InitialUserData() && loading && error == None
    {
      userData := InitialUserData();
      loading := true;
      error := None;
    }

    /** `fetchUserData`, given what `getUserDetails` answered: nothing
        happens without a `userId`; otherwise the error is cleared, the
        answer replaces the form data or the failure message is recorded,
        and loading ends. */
    method FetchUserData(userId: Option<string>, reply: Result<JsValue, string>) returns (requested: bool)
      modifies this`userData, this`loading, this`error
      ensures requested <==> userId.Some? && userId.value != []
      ensures !requested ==> userData == old(userData) && loading == old(loading) && error == old(error)
      ensures requested ==> !loading
      ensures requested && reply.Success? ==> userData == reply.value && error == None
      ensures requested && reply.Failure? ==> userData == old(userData) && error == Some(FetchFailed)
    {
      requested := userId.Some? && userId.value != [];
      if !requested {
        return;
      }
      loading := true;
      error := None;
      if reply.Success? {
        userData := reply.value;
      } else {
        error := Some(FetchFailed);
      }
      loading := false;
    }

    method HandleChange(name: string, value: string)
      modifies this`userData
      ensures userData == ChangeField(old(userData), name, value)
    {
      userData := ChangeField(userData, name, value);
    }

    method HandleProfileChange(name: string, value: string)
      modifies this`userData
      ensures userData == ChangeProfileField(old(userData), name, value)
    {
      userData := ChangeProfileField(userData, name, value);
    }

    method HandleCheckboxChange(checked: bool)
      modifies this`userData
      ensures userData == ChangeActive(old(userData), checked)
    {
      userData := ChangeActive(userData, checked);
    }
  }
}
