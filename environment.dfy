/** The library and system calls the handler makes, as functions supplied from outside. */
module Environment {
  import opened Wrappers
  import opened Bytes

  datatype Env = Env(
    /** `LocalDateTime.parse` with "EEE, dd MMM yyyy HH:mm:ss zzz", as UTC epoch seconds. */
    rfc1123: string -> Option<int>,
    /** The same with "EEEE, dd-MMM-yy HH:mm:ss zzz". */
    rfc850: string -> Option<int>,
    /** The same with "EEE MMM dd HH:mm:ss yyyy". */
    asctime: string -> Option<int>,
    /** `new String(Base64.getEncoder().encode(bytes))`. */
    base64Encode: seq<byte> -> string,
    /** `Base64.getDecoder().decode(text.getBytes())`; `None` for the IllegalArgumentException. */
    base64Decode: string -> Option<seq<byte>>,
    /** `new URI(path).getPath()`; `None` for the URISyntaxException. */
    uriPath: string -> Option<string>,
    /** The `Date` header text for a time in milliseconds. */
    httpDate: nat -> string,
    /** The clock, in milliseconds, while the `k`-th request of the connection is served. */
    clock: nat -> nat)

  /** The three date syntaxes, tried in order; `None` when all three fail. */
  function ParseDate(env: Env, s: string): (r: Option<int>)
    ensures r.None? <==> env.rfc1123(s).None? && env.rfc850(s).None? && env.asctime(s).None?
    ensures env.rfc1123(s).Some? ==> r == env.rfc1123(s)
    ensures env.rfc1123(s).None? && env.rfc850(s).Some? ==> r == env.rfc850(s)
    ensures env.rfc1123(s).None? && env.rfc850(s).None? ==> r == env.asctime(s)
  {
    if env.rfc1123(s).Some? then env.rfc1123(s)
    else if env.rfc850(s).Some? then env.rfc850(s)
    else env.asctime(s)
  }
}
