/** The two protocol versions the server speaks and their wire tokens. */
module HttpVersion {
  import opened Wrappers

  datatype Version = HTTP11 | HTTP10

  /** The `versionString` each constant is built with. */
  function VersionString(v: Version): string {
    match v
    case HTTP11 => "HTTP/1.1"
    case HTTP10 => "HTTP/1.0"
  }

  /** `toString()` yields the version string. */
  function ToString(v: Version): string {
    VersionString(v)
  }

  /** The `switch` on a version token in the request and status line parsers: exact, case-sensitive match. */
  function FromToken(token: string): (r: Option<Version>)
    ensures r.Some? ==> VersionString(r.value) == token
    ensures r.None? ==> forall v: Version :: VersionString(v) != token
  {
    if token == "HTTP/1.1" then Some(HTTP11)
    else if token == "HTTP/1.0" then Some(HTTP10)
    else None
  }

  /** Different versions have different strings. */
  lemma {:induction false} VersionStringInjective(a: Version, b: Version)
    ensures VersionString(a) == VersionString(b) ==> a == b
  {
    if a != b {
      assert VersionString(a)[7] != VersionString(b)[7];
    }
  }

  /** The token switch inverts the version string. */
  lemma {:induction false} FromTokenOfVersionString(v: Version)
    ensures FromToken(VersionString(v)) == Some(v)
  {
    var r := FromToken(VersionString(v));
    assert r.Some?;
    VersionStringInjective(r.value, v);
  }

  /** A version string has no space, CR or LF. */
  lemma {:induction false} VersionStringPlain(v: Version)
    ensures forall i :: 0 <= i < |VersionString(v)| ==> VersionString(v)[i] !in {' ', '\r', '\n'}
  {
  }
}

/** The four request methods and their tokens. */
module RequestType {
  import opened Wrappers

  datatype Method = GET | POST | HEAD | PUT

  /** The `typeString` each constant is built with. */
  function TypeString(m: Method): string {
    match m
    case GET => "GET"
    case POST => "POST"
    case HEAD => "HEAD"
    case PUT => "PUT"
  }

  /** `RequestType.valueOf(name)`: the constant whose NAME is exactly `name`;
      `None` stands for the IllegalArgumentException. */
  function ValueOf(name: string): (r: Option<Method>)
    ensures r.Some? ==> TypeString(r.value) == name
    ensures r.None? ==> forall m: Method :: TypeString(m) != name
  {
    if name == "GET" then Some(GET)
    else if name == "POST" then Some(POST)
    else if name == "HEAD" then Some(HEAD)
    else if name == "PUT" then Some(PUT)
    else None
  }

  /** The type strings are pairwise distinct. */
  lemma {:induction false} TypeStringInjective(a: Method, b: Method)
    ensures TypeString(a) == TypeString(b) ==> a == b
  {
    if a != b && |TypeString(a)| == |TypeString(b)| {
      assert TypeString(a)[1] != TypeString(b)[1] || TypeString(a)[0] != TypeString(b)[0];
    }
  }

  /** The token a request line is written with is read back as the same method. */
  lemma {:induction false} ValueOfTypeString(m: Method)
    ensures ValueOf(TypeString(m)) == Some(m)
  {
    var r := ValueOf(TypeString(m));
    assert r.Some?;
    TypeStringInjective(r.value, m);
  }

  /** A method token has no space, CR or LF. */
  lemma {:induction false} TypeStringPlain(m: Method)
    ensures forall i :: 0 <= i < |TypeString(m)| ==> TypeString(m)[i] !in {' ', '\r', '\n'}
  {
  }
}
