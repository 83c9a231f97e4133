/** `client/src/ContextAdmin.jsx`: the admin session of the client. The
    session token lives in the `admin_token` cookie, which `getAdminToken`
    reads back out of `document.cookie`. The browser's cookie jar is
    modelled as the sequence of its (name, value) pairs in the order
    `document.cookie` lists them; the HTTP requests are parameters, given as
    what the awaited call resolved to or that it was rejected. */
module ContextAdmin {
  import opened Wrappers
  import opened Strings

  const AdminCookie: string := "admin_token"
  /** What a `document.cookie` piece must start with, once trimmed. */
  const AdminPrefix: string := "admin_token="

  // ---------------------------------------------------------------------------
  // `getAdminToken`.

  /** `cookie.trim().startsWith('admin_token=')`. */
  predicate IsTokenPiece(piece: string) {
    StartsWith(Trim(JavaScript, piece), AdminPrefix)
  }

  /** A piece that passes the test contains `=`, so `split('=')[1]` exists. */
  lemma TokenPieceSplits(piece: string)
    requires IsTokenPiece(piece)
    ensures |SplitOn(piece, '=')| >= 2
  {
    TrimShape(JavaScript, piece);
    var t := Trim(JavaScript, piece);
    assert t[11] == '=';
    assert piece[TrimOffset(JavaScript, piece) + 11] == '=';
    SplitOnPieces(piece, '=');
  }

  /** `pieces.find(...)`, followed by `split('=')[1]` of the piece found;
      `None` is the `null` returned when no piece matches. */
  function FindToken(pieces: seq<string>): Option<string> {
    if pieces == [] then None
    else if IsTokenPiece(pieces[0]) then
      TokenPieceSplits(pieces[0]);
      Some(SplitOn(pieces[0], '=')[1])
    else FindToken(pieces[1..])
  }

  /** `find` comes back empty exactly when no piece passes the test. */
  lemma {:induction false} FindTokenNull(pieces: seq<string>)
    ensures FindToken(pieces).None? <==> forall p :: p in pieces ==> !IsTokenPiece(p)
  {
    if pieces != [] && !IsTokenPiece(pieces[0]) {
      FindTokenNull(pieces[1..]);
      assert forall p :: p in pieces ==> p == pieces[0] || p in pieces[1..];
    }
  }

  /** `getAdminToken()` applied to the text of `document.cookie`. */
  function GetAdminToken(cookie: string): Option<string> {
    FindToken(SplitOn(cookie, ';'))
  }

  /** `null` exactly when no `;`-separated piece of the cookie text starts,
      once trimmed, with `admin_token=`. */
  lemma GetAdminTokenNull(cookie: string)
    ensures GetAdminToken(cookie).None? <==> forall p :: p in SplitOn(cookie, ';') ==> !IsTokenPiece(p)
  {
    FindTokenNull(SplitOn(cookie, ';'));
  }

  /** JavaScript truthiness of what `getAdminToken` returned: `null` and the
      empty string are falsy. */
  predicate Truthy(token: Option<string>) {
    token.Some? && token.value != []
  }

  // ---------------------------------------------------------------------------
  // The cookie jar behind `document.cookie`.

  datatype Cookie = Cookie(name: string, value: string)

  /** A name the browser can store and list back: non-empty, with no
      whitespace, `=` or `;`; a value never holds `;`. */
  predicate ValidCookie(c: Cookie) {
    c.name != [] && NoSpace(JavaScript, c.name) && '=' !in c.name && ';' !in c.name && ';' !in c.value
  }

  /** The jar holds valid cookies, one per name. */
  predicate ValidJar(jar: seq<Cookie>) {
    (forall i :: 0 <= i < |jar| ==> ValidCookie(jar[i]))
    && (forall i, j :: 0 <= i < j < |jar| ==> jar[i].name != jar[j].name)
  }

  function Pair(c: Cookie): string {
    c.name + "=" + c.value
  }

  function Pairs(jar: seq<Cookie>): (ps: seq<string>)
    ensures |ps| == |jar|
  {
    if jar == [] then [] else [Pair(jar[0])] + Pairs(jar[1..])
  }

  /** Reading `document.cookie`: the pairs, joined with `"; "`. */
  function DocumentCookie(jar: seq<Cookie>): string {
    JoinWith(Pairs(jar), "; ")
  }

  /** The value stored under `name`. */
  function Lookup(jar: seq<Cookie>, name: string): (r: Option<string>)
    ensures r.None? <==> forall i :: 0 <= i < |jar| ==> jar[i].name != name
    ensures r.Some? ==> exists i :: 0 <= i < |jar| && jar[i] == Cookie(name, r.value)
  {
    if jar == [] then None
    else if jar[0].name == name then Some(jar[0].value)
    else
      var r := Lookup(jar[1..], name);
      assert forall i :: 1 <= i < |jar| ==> jar[i] == jar[1..][i - 1];
      r
  }

  /** Writing `document.cookie = name + '=' + value` without an expiry in the
      past: a cookie of that name is replaced where it stands, and a new name
      is added at the end. */
  function Store(jar: seq<Cookie>, c: Cookie): (r: seq<Cookie>)
    ensures Lookup(r, c.name) == Some(c.value)
    ensures forall n :: n != c.name ==> Lookup(r, n) == Lookup(jar, n)
  {
    if jar == [] then [c]
    else if jar[0].name == c.name then [c] + jar[1..]
    else [jar[0]] + Store(jar[1..], c)
  }

  /** Writing a cookie of that name whose expiry is in the past: the browser
      drops it. */
  function Remove(jar: seq<Cookie>, name: string): (r: seq<Cookie>)
    ensures Lookup(r, name).None?
    ensures forall n :: n != name ==> Lookup(r, n) == Lookup(jar, n)
  {
    if jar == [] then []
    else if jar[0].name == name then Remove(jar[1..], name)
    else [jar[0]] + Remove(jar[1..], name)
  }

  lemma {:induction false} StoreNames(jar: seq<Cookie>, c: Cookie)
    ensures forall k :: 0 <= k < |Store(jar, c)| ==> Store(jar, c)[k] == c || Store(jar, c)[k] in jar
    ensures forall k :: 0 <= k < |Store(jar, c)| ==> Store(jar, c)[k].name == c.name || exists i :: 0 <= i < |jar| && jar[i] == Store(jar, c)[k]
  {
    if jar != [] && jar[0].name != c.name {
      StoreNames(jar[1..], c);
    }
  }

  /** Storing a valid cookie keeps the jar valid: still one cookie per name. */
  lemma {:induction false} StoreValid(jar: seq<Cookie>, c: Cookie)
    requires ValidJar(jar) && ValidCookie(c)
    ensures ValidJar(Store(jar, c))
  {
    if jar != [] && jar[0].name != c.name {
      StoreValid(jar[1..], c);
      var r := Store(jar, c);
      forall j | 0 < j < |r| ensures r[0].name != r[j].name {
        if r[j].name != c.name {
          assert r[j] == Store(jar[1..], c)[j - 1];
          StoreNames(jar[1..], c);
        }
      }
    }
  }

  lemma {:induction false} RemoveNames(jar: seq<Cookie>, name: string)
    ensures forall k :: 0 <= k < |Remove(jar, name)| ==> Remove(jar, name)[k] in jar
  {
    if jar != [] {
      RemoveNames(jar[1..], name);
    }
  }

  /** Dropping a cookie keeps the jar valid. */
  lemma {:induction false} RemoveValid(jar: seq<Cookie>, name: string)
    requires ValidJar(jar)
    ensures ValidJar(Remove(jar, name))
  {
    if jar != [] {
      RemoveValid(jar[1..], name);
      if jar[0].name != name {
        RemoveNames(jar[1..], name);
        RemoveKeepsHead(jar, name, Remove(jar[1..], name));
      }
    }
  }

  /** Keeping the first cookie in front of a valid jar of later cookies
      keeps the jar valid. */
  lemma RemoveKeepsHead(jar: seq<Cookie>, name: string, rest: seq<Cookie>)
    requires ValidJar(jar) && jar != [] && jar[0].name != name
    requires ValidJar(rest) && forall k :: 0 <= k < |rest| ==> rest[k] in jar[1..]
    ensures ValidJar([jar[0]] + rest)
  {
    var r := [jar[0]] + rest;
    forall j | 0 < j < |r| ensures r[0].name != r[j].name {
      assert r[j] == rest[j - 1];
      var m :| 0 <= m < |jar[1..]| && jar[1..][m] == r[j];
      assert jar[m + 1] == r[j];
    }
  }

  // ---------------------------------------------------------------------------
  // Reading the admin token back out of `document.cookie`.

  /** The pieces `document.cookie.split(';')` yields: the first pair as it
      is, every later one after the space of its `"; "` separator. */
  function CookiePieces(jar: seq<Cookie>, lead: string): (ps: seq<string>)
    ensures |ps| == |jar|
  {
    if jar == [] then [] else [lead + Pair(jar[0])] + CookiePieces(jar[1..], " ")
  }

  lemma {:induction false} JoinPieces(jar: seq<Cookie>, lead: string)
    requires jar != []
    ensures lead + DocumentCookie(jar) == JoinWith(CookiePieces(jar, lead), ";")
  {
    if |jar| >= 2 {
      JoinPieces(jar[1..], " ");
      assert Pairs(jar)[1..] == Pairs(jar[1..]);
      assert CookiePieces(jar, lead)[1..] == CookiePieces(jar[1..], " ");
      calc {
        lead + DocumentCookie(jar);
        lead + (Pair(jar[0]) + "; " + DocumentCookie(jar[1..]));
        (lead + Pair(jar[0])) + ";" + (" " + DocumentCookie(jar[1..]));
        JoinWith(CookiePieces(jar, lead), ";");
      }
    } else {
      assert jar[1..] == [];
    }
  }

  lemma {:induction false} PiecesHaveNoSemicolon(jar: seq<Cookie>, lead: string)
    requires ValidJar(jar) && ';' !in lead
    ensures forall i :: 0 <= i < |CookiePieces(jar, lead)| ==> ';' !in CookiePieces(jar, lead)[i]
  {
    if jar != [] {
      PiecesHaveNoSemicolon(jar[1..], " ");
      var ps := CookiePieces(jar, lead);
      forall i | 0 <= i < |ps| ensures ';' !in ps[i] {
        if i > 0 {
          assert ps[i] == CookiePieces(jar[1..], " ")[i - 1];
        }
      }
    }
  }

  /** `split(';')` of `document.cookie` gives the pieces back. */
  lemma SplitDocumentCookie(jar: seq<Cookie>)
    requires ValidJar(jar) && jar != []
    ensures SplitOn(DocumentCookie(jar), ';') == CookiePieces(jar, "")
  {
    JoinPieces(jar, "");
    assert "" + DocumentCookie(jar) == DocumentCookie(jar);
    PiecesHaveNoSemicolon(jar, "");
    SplitOnJoinWith(CookiePieces(jar, ""), ';');
  }

  lemma AdminNameValid()
    ensures ValidCookie(Cookie(AdminCookie, []))
  {
  }

  lemma AdminCookieValid(token: string)
    ensures ValidCookie(Cookie(AdminCookie, StoredValue(token)))
    ensures AdminPrefix == AdminCookie + "="
  {
    AdminNameValid();
  }

  lemma TrimStartPiece(lead: string, x: string)
    requires lead == "" || lead == " "
    requires x != [] && !IsSpace(JavaScript, x[0])
    ensures TrimStart(JavaScript, lead + x) == x
  {
    if lead == " " {
      assert (lead + x)[1..] == x;
    } else {
      assert lead + x == x;
    }
  }

  lemma PairShape(c: Cookie)
    requires ValidCookie(c)
    ensures |Pair(c)| > |c.name| && Pair(c)[..|c.name| + 1] == c.name + "="
    ensures !IsSpace(JavaScript, Pair(c)[0]) && !IsSpace(JavaScript, Pair(c)[|c.name|])
  {
    assert Pair(c)[0] == c.name[0];
  }

  lemma TrimOfPiece(lead: string, c: Cookie)
    requires lead == "" || lead == " "
    requires ValidCookie(c)
    ensures Trim(JavaScript, lead + Pair(c)) == TrimEnd(JavaScript, Pair(c))
  {
    PairShape(c);
    TrimStartPiece(lead, Pair(c));
  }

  /** Trimming a piece of `document.cookie` leaves its name and `=` in
      front. */
  lemma TrimmedPiece(lead: string, c: Cookie)
    requires lead == "" || lead == " "
    requires ValidCookie(c)
    ensures |Trim(JavaScript, lead + Pair(c))| > |c.name|
    ensures Trim(JavaScript, lead + Pair(c))[..|c.name| + 1] == c.name + "="
  {
    TrimOfPiece(lead, c);
    PairShape(c);
    TrimEndKeeps(JavaScript, Pair(c), |c.name|);
  }

  lemma TwelfthChar(r: string, name: string)
    requires |r| > |name| && r[..|name| + 1] == name + "=" && StartsWith(r, AdminPrefix)
    ensures |name| > 11 ==> name[11] == '='
  {
    if |name| > 11 {
      assert r[11] == name[11];
    }
  }

  /** A text that starts with a name and `=` starts with `admin_token=`
      exactly when that name is the admin cookie's. */
  lemma NamedPrefix(r: string, name: string)
    requires '=' !in name && |r| > |name| && r[..|name| + 1] == name + "="
    ensures StartsWith(r, AdminPrefix) <==> name == AdminCookie
  {
    AdminCookieValid([]);
    if StartsWith(r, AdminPrefix) {
      assert r[|name|] == '=';
      assert |name| >= 11;
      TwelfthChar(r, name);
      assert name == r[..11];
    }
  }

  lemma PrefixedName(r: string, c: Cookie)
    requires ValidCookie(c) && |r| > |c.name| && r[..|c.name| + 1] == c.name + "="
    ensures StartsWith(r, AdminPrefix) <==> c.name == AdminCookie
  {
    NamedPrefix(r, c.name);
  }

  /** A piece passes the `startsWith` test exactly when its cookie is the
      admin cookie. */
  lemma PieceIsToken(lead: string, c: Cookie)
    requires lead == "" || lead == " "
    requires ValidCookie(c)
    ensures IsTokenPiece(lead + Pair(c)) <==> c.name == AdminCookie
  {
    TrimmedPiece(lead, c);
    PrefixedName(Trim(JavaScript, lead + Pair(c)), c);
  }

  /** What `getAdminToken` returns for the value stored in the admin cookie:
      its part before the first `=` — the text between the first and the
      second `=` of the piece. */
  function TokenOf(stored: Option<string>): Option<string> {
    if stored.None? then None else Some(SplitOn(stored.value, '=')[0])
  }

  /** `split('=')[1]` of a piece is the cookie's value up to its first `=`. */
  lemma SplitPiece(lead: string, c: Cookie)
    requires lead == "" || lead == " "
    requires ValidCookie(c)
    ensures |SplitOn(lead + Pair(c), '=')| >= 2
    ensures SplitOn(lead + Pair(c), '=')[1] == SplitOn(c.value, '=')[0]
  {
    assert lead + Pair(c) == (lead + c.name) + ['='] + c.value;
    SplitOnAfterPiece(lead + c.name, c.value, '=');
  }

  lemma FindTokenHead(ps: seq<string>)
    requires ps != [] && IsTokenPiece(ps[0])
    ensures |SplitOn(ps[0], '=')| >= 2
    ensures FindToken(ps) == Some(SplitOn(ps[0], '=')[1])
  {
    TokenPieceSplits(ps[0]);
  }

  lemma FindTokenTail(ps: seq<string>)
    requires ps != [] && !IsTokenPiece(ps[0])
    ensures FindToken(ps) == FindToken(ps[1..])
  {
  }

  lemma {:induction false} FindTokenOfPieces(jar: seq<Cookie>, lead: string)
    requires forall i :: 0 <= i < |jar| ==> ValidCookie(jar[i])
    requires lead == "" || lead == " "
    ensures FindToken(CookiePieces(jar, lead)) == TokenOf(Lookup(jar, AdminCookie))
  {
    if jar != [] {
      var ps := CookiePieces(jar, lead);
      assert ps[0] == lead + Pair(jar[0]);
      PieceIsToken(lead, jar[0]);
      if jar[0].name == AdminCookie {
        SplitPiece(lead, jar[0]);
        FindTokenHead(ps);
      } else {
        FindTokenTail(ps);
        assert ps[1..] == CookiePieces(jar[1..], " ");
        FindTokenOfPieces(jar[1..], " ");
      }
    }
  }

  /** Reading the cookie text back: `getAdminToken` finds the admin cookie
      when there is one and yields its value up to the first `=`, and yields
      `null` when there is none. */
  lemma ReadAdminToken(jar: seq<Cookie>)
    requires ValidJar(jar)
    ensures GetAdminToken(DocumentCookie(jar)) == TokenOf(Lookup(jar, AdminCookie))
  {
    if jar == [] {
      assert SplitOn(DocumentCookie(jar), ';') == [[]];
      assert !IsTokenPiece([]);
    } else {
      SplitDocumentCookie(jar);
      FindTokenOfPieces(jar, "");
    }
  }

  /** What `getAdminToken()` returns while the browser holds `jar`. */
  function CookieToken(jar: seq<Cookie>): Option<string> {
    GetAdminToken(DocumentCookie(jar))
  }

  /** A cookie value with the spaces and tabs at its ends removed, as
      section 5.2 of RFC 6265 has the browser do. */
  function StripWsp(s: string): string
    decreases |s|
  {
    if s != [] && IsSpace(Wsp, s[0]) then StripWsp(s[1..])
    else if s != [] && IsSpace(Wsp, s[|s| - 1]) then StripWsp(s[..|s| - 1])
    else s
  }

  /** Stripping is trimming with the cookie's whitespace, so what is left
      is the part of `s` between two runs of spaces and tabs. */
  lemma {:induction false} StripWspIsTrim(s: string)
    ensures StripWsp(s) == Trim(Wsp, s)
    decreases |s|
  {
    if s != [] && IsSpace(Wsp, s[0]) {
      StripWspIsTrim(s[1..]);
    } else if s != [] && IsSpace(Wsp, s[|s| - 1]) {
      StripWspIsTrim(s[..|s| - 1]);
      TrimStartKeeps(Wsp, s);
      TrimStartKeeps(Wsp, s[..|s| - 1]);
    } else {
      TrimStartKeeps(Wsp, s);
    }
  }

  /** The cookie value `document.cookie = 'admin_token=' + token` stores: the
      text of `token` up to its first `;` (the rest being cookie attributes),
      without the spaces and tabs at its ends. */
  function StoredValue(token: string): (v: string)
    ensures ';' !in v
    ensures v == [] || (!IsSpace(Wsp, v[0]) && !IsSpace(Wsp, v[|v| - 1]))
  {
    var piece := SplitOn(token, ';')[0];
    StripWspIsTrim(piece);
    TrimShape(Wsp, piece);
    StripWsp(piece)
  }

  // ---------------------------------------------------------------------------
  // The provider's state.

  /** What `/api/admin/login` answered. */
  datatype LoginData = LoginData(accessToken: string, username: string)

  class AdminContext {
    var admin: Option<string>
    var loading: bool
    var cookies: seq<Cookie>

    ghost predicate Valid()
      reads this
    {
      ValidJar(cookies)
    }

    /** The initial `useState` values, over the cookies the browser has. */
    constructor (jar: seq<Cookie>)
      requires ValidJar(jar)
      ensures Valid()
      ensures admin == None && loading && cookies == jar
    {
      admin := None;
      loading := true;
      cookies := jar;
    }

    /** `checkAdminToken`, given what `/api/admin/protected` answered: it is
        asked only with a token, its `logged_in_as` becomes the admin, and
        loading always ends. */
    method CheckAdminToken(reply: Result<string, string>) returns (requested: bool)
      requires Valid()
      modifies this`admin, this`loading
      ensures Valid()
      ensures requested <==> Truthy(CookieToken(cookies))
      ensures !loading
      ensures !requested || reply.Failure? ==> admin == None
      ensures requested && reply.Success? ==> admin == Some(reply.value)
    {
      var token := CookieToken(cookies);
      requested := Truthy(token);
      if requested && reply.Success? {
        admin := Some(reply.value);
      } else {
        admin := None;
      }
      loading := false;
    }

    /** `login`: on success the access token goes to the `admin_token`
        cookie and the returned username becomes the admin; a failed request
        is rethrown with nothing changed. */
    method Login(reply: Result<LoginData, string>) returns (r: Result<LoginData, string>)
      requires Valid()
      modifies this`admin, this`cookies
      ensures Valid()
      ensures r == reply
      ensures reply.Failure? ==> admin == old(admin) && cookies == old(cookies)
      ensures reply.Success? ==>
                cookies == Store(old(cookies), Cookie(AdminCookie, StoredValue(reply.value.accessToken)))
                && admin == Some(reply.value.username)
      ensures reply.Success? ==> CookieToken(cookies) == TokenOf(Some(StoredValue(reply.value.accessToken)))
    {
      r := reply;
      if reply.Success? {
        var c := Cookie(AdminCookie, StoredValue(reply.value.accessToken));
        AdminCookieValid(reply.value.accessToken);
        StoreValid(cookies, c);
        cookies := Store(cookies, c);
        ReadAdminToken(cookies);
        admin := Some(reply.value.username);
      }
    }

    /** `logout`, given what `/api/admin/logout` answered: it is asked only
        with a token, and unless it fails the cookie is deleted and the admin
        cleared; a failed request is caught and changes nothing. */
    method Logout(reply: Result<(), string>) returns (requested: bool)
      requires Valid()
      modifies this`admin, this`cookies
      ensures Valid()
      ensures requested <==> Truthy(CookieToken(old(cookies)))
      ensures requested && reply.Failure? ==> admin == old(admin) && cookies == old(cookies)
      ensures !requested || reply.Success? ==>
                cookies == Remove(old(cookies), AdminCookie) && admin == None
    {
      var token := CookieToken(cookies);
      requested := Truthy(token);
      if requested && reply.Failure? {
        return;
      }
      RemoveValid(cookies, AdminCookie);
      cookies := Remove(cookies, AdminCookie);
      admin := None;
    }

    /** `refreshToken`, given what `/api/admin/refresh` answered: a new access
        token replaces the cookie; a failure is caught and changes nothing.
        The admin is never touched. */
    method RefreshToken(reply: Result<string, string>) returns (r: Option<string>)
      requires Valid()
      modifies this`cookies
      ensures Valid()
      ensures reply.Failure? ==> r == None && cookies == old(cookies)
      ensures reply.Success? ==>
                r == Some(reply.value) && cookies == Store(old(cookies), Cookie(AdminCookie, StoredValue(reply.value)))
      ensures reply.Success? ==> CookieToken(cookies) == TokenOf(Some(StoredValue(reply.value)))
    {
      if reply.Success? {
        var c := Cookie(AdminCookie, StoredValue(reply.value));
        AdminCookieValid(reply.value);
        StoreValid(cookies, c);
        cookies := Store(cookies, c);
        ReadAdminToken(cookies);
        r := Some(reply.value);
      } else {
        r := None;
      }
    }
  }

  /** After `logout` deletes the cookie, `getAdminToken` finds no token. */
  lemma LoggedOutHasNoToken(jar: seq<Cookie>)
    requires ValidJar(jar)
    ensures CookieToken(Remove(jar, AdminCookie)) == None
  {
    RemoveValid(jar, AdminCookie);
    ReadAdminToken(Remove(jar, AdminCookie));
  }

  /** Without a `;` the whole token is the value, trimmed. */
  lemma StoredTrimmed(token: string)
    requires ';' !in token
    ensures StoredValue(token) == Trim(Wsp, token)
  {
    SplitOnNoSep(token, ';');
    StripWspIsTrim(token);
  }

  /** A token without `;` or `=` is read back after `login` stores it with
      only its leading and trailing spaces and tabs gone, so a JWT, which has
      neither, is read back unchanged. */
  lemma PlainTokenRoundTrip(token: string)
    requires ';' !in token && '=' !in token
    ensures TokenOf(Some(StoredValue(token))) == Some(Trim(Wsp, token))
    ensures token == [] || (!IsSpace(Wsp, token[0]) && !IsSpace(Wsp, token[|token| - 1])) ==>
              TokenOf(Some(StoredValue(token))) == Some(token)
  {
    StoredTrimmed(token);
    var v := Trim(Wsp, token);
    TrimShape(Wsp, token);
    assert forall i :: 0 <= i < |v| ==> v[i] == token[TrimOffset(Wsp, token) + i];
    SplitOnNoSep(v, '=');
    if token == [] || (!IsSpace(Wsp, token[0]) && !IsSpace(Wsp, token[|token| - 1])) {
      assert StripWsp(token) == token;
    }
  }

  /** A value holding `=` is cut at it: `split('=')[1]` sees only up to the
      second `=` of the piece, less the spaces and tabs the browser strips
      from the front. */
  lemma TokenWithEqualsTruncated(a: string, b: string)
    requires ';' !in a + "=" + b && '=' !in a
    ensures TokenOf(Some(StoredValue(a + "=" + b))) == Some(TrimStart(Wsp, a))
  {
    var t := "=" + b;
    assert a + "=" + b == a + t;
    TrimmedCut(a, t);
    StoredTrimmed(a + t);
  }

  lemma TrimmedCut(a: string, t: string)
    requires '=' !in a && t != [] && t[0] == '='
    ensures SplitOn(Trim(Wsp, a + t), '=')[0] == TrimStart(Wsp, a)
  {
    TrimBeforeNonSpace(Wsp, a, t);
    EqualsCut(TrimStart(Wsp, a), a, Trim(Wsp, a + t));
  }

  /** A text that starts with an `=`-free suffix `x` of `a` and then `=`
      splits on `=` with `x` first. */
  lemma EqualsCut(x: string, a: string, r: string)
    requires '=' !in a && |x| <= |a| && x == a[|a| - |x|..]
    requires x + "=" <= r
    ensures SplitOn(r, '=')[0] == x
  {
    assert r == x + "=" + r[|x| + 1..] by {
      assert r == r[..|x| + 1] + r[|x| + 1..];
    }
    assert '=' !in x by {
      assert forall i :: 0 <= i < |x| ==> x[i] == a[|a| - |x| + i];
    }
    SplitOnAfterPiece(x, r[|x| + 1..], '=');
  }
}
