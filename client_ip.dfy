/**
 * The `get-client-ip` edge function: the caller's address is the first entry of
 * `x-forwarded-for`, else `cf-connecting-ip`, else `x-real-ip`, else "0.0.0.0".
 */
module ClientIp {
  import opened Common

  /** The characters `String.prototype.trim` removes: WhiteSpace and LineTerminator of ECMAScript. */
  predicate IsJsWhitespace(c: char)
  {
    c == ' ' || c == '\t' || c == '\n' || c == '\U{000B}' || c == '\U{000C}' || c == '\r'
    || c == '\U{00A0}' || c == '\U{1680}' || ('\U{2000}' <= c <= '\U{200A}')
    || c == '\U{2028}' || c == '\U{2029}' || c == '\U{202F}' || c == '\U{205F}'
    || c == '\U{3000}' || c == '\U{FEFF}'
  }

  /** Removes leading whitespace: the result is the suffix that starts at the first other character. */
  function TrimStart(s: string): (r: string)
    ensures |r| <= |s| && r == s[|s| - |r|..]
    ensures forall k :: 0 <= k < |s| - |r| ==> IsJsWhitespace(s[k])
    ensures r == [] || !IsJsWhitespace(r[0])
    decreases |s|
  {
    if s != [] && IsJsWhitespace(s[0]) then TrimStart(s[1..]) else s
  }

  /** Removes trailing whitespace: the result is the prefix that ends at the last other character. */
  function TrimEnd(s: string): (r: string)
    ensures |r| <= |s| && r == s[..|r|]
    ensures forall k :: |r| <= k < |s| ==> IsJsWhitespace(s[k])
    ensures r == [] || !IsJsWhitespace(r[|r| - 1])
    decreases |s|
  {
    if s != [] && IsJsWhitespace(s[|s| - 1]) then TrimEnd(s[..|s| - 1]) else s
  }

  /** `s.trim()` */
  function Trim(s: string): (r: string)
    ensures r == [] || (!IsJsWhitespace(r[0]) && !IsJsWhitespace(r[|r| - 1]))
    ensures (forall k :: 0 <= k < |s| ==> IsJsWhitespace(s[k])) <==> r == []
  {
    var t := TrimStart(s);
    var r := TrimEnd(t);
    assert r != [] ==> r[0] == t[0];
    assert r == [] ==> t == [];
    r
  }

  lemma TrimIdempotent(s: string)
    ensures Trim(Trim(s)) == Trim(s)
  {
    var r := Trim(s);
    if r != [] {
      assert TrimStart(r) == r;
      assert TrimEnd(r) == r;
    }
  }

  /** `s.split(",")[0]`: everything before the first comma (all of `s` when there is none). */
  function FirstField(s: string): (r: string)
    ensures |r| <= |s| && r == s[..|r|]
    ensures ',' !in r
    ensures |r| < |s| ==> s[|r|] == ','
    decreases |s|
  {
    if s == [] || s[0] == ',' then [] else [s[0]] + FirstField(s[1..])
  }

  lemma {:induction false} FirstFieldOfJoin(first: string, rest: string)
    requires ',' !in first
    ensures FirstField(first + [','] + rest) == first
    decreases |first|
  {
    if first != [] {
      assert (first + [','] + rest)[1..] == first[1..] + [','] + rest;
      FirstFieldOfJoin(first[1..], rest);
      assert first == [first[0]] + first[1..];
    }
  }

  /** `headers.get(name) || ""` */
  function HeaderOr(h: Option<string>): string
  {
    if h.Some? then h.value else ""
  }

  const Fallback: string := "0.0.0.0"

  /** The trimmed first entry of `x-forwarded-for`. */
  function ForwardedIp(xff: Option<string>): string
  {
    Trim(FirstField(HeaderOr(xff)))
  }

  /**
   * `ipFromXff || cf || xReal || "0.0.0.0"`: the first non-empty candidate in
   * that order; the result is never empty.
   */
  function SelectIp(xff: Option<string>, cf: Option<string>, xReal: Option<string>): (ip: string)
    ensures ip != ""
    ensures ForwardedIp(xff) != "" ==> ip == ForwardedIp(xff)
    ensures ForwardedIp(xff) == "" && HeaderOr(cf) != "" ==> ip == HeaderOr(cf)
    ensures ForwardedIp(xff) == "" && HeaderOr(cf) == "" && HeaderOr(xReal) != "" ==> ip == HeaderOr(xReal)
    ensures ForwardedIp(xff) == "" && HeaderOr(cf) == "" && HeaderOr(xReal) == "" ==> ip == Fallback
  {
    var fromXff := ForwardedIp(xff);
    var c := HeaderOr(cf);
    var x := HeaderOr(xReal);
    if fromXff != "" then fromXff else if c != "" then c else if x != "" then x else Fallback
  }

  /** Entries of `x-forwarded-for` after the first are never consulted. */
  lemma LaterForwardedIgnored(first: string, rest: string, cf: Option<string>, xReal: Option<string>)
    requires ',' !in first
    ensures SelectIp(Some(first + [','] + rest), cf, xReal) == SelectIp(Some(first), cf, xReal)
  {
    FirstFieldOfJoin(first, rest);
    assert FirstField(first) == first;
  }

  /** A blank first entry (such as `" ,1.2.3.4"`) falls through to the other headers. */
  lemma BlankForwardedFallsThrough(first: string, rest: string, cf: Option<string>, xReal: Option<string>)
    requires forall k :: 0 <= k < |first| ==> IsJsWhitespace(first[k])
    ensures SelectIp(Some(first + [','] + rest), cf, xReal) == SelectIp(None, cf, xReal)
  {
    assert ',' !in first;
    FirstFieldOfJoin(first, rest);
    assert ForwardedIp(Some(first + [','] + rest)) == Trim(first) == "";
    assert ForwardedIp(None) == Trim("") == "";
  }

  datatype Response = Preflight | IpBody(ip: string)

  /**
   * The request handler: an `OPTIONS` request is answered with the CORS headers
   * only; any other request carries the selected address.
   */
  function Handle(httpMethod: string, xff: Option<string>, cf: Option<string>, xReal: Option<string>): (r: Response)
    ensures r.Preflight? <==> httpMethod == "OPTIONS"
    ensures r.IpBody? ==> r.ip != "" && r.ip == SelectIp(xff, cf, xReal)
  {
    if httpMethod == "OPTIONS" then Preflight else IpBody(SelectIp(xff, cf, xReal))
  }
}
