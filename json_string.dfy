/** A reader for the body of a JSON string literal as section 7 of RFC 8259 defines it.
    It is the reference against which the escaped prompt inside the request envelope is
    judged: what a conforming JSON parser reads between the quotation marks. */
module JsonString {
  import opened Wrappers

  /** The value of one hexadecimal digit. */
  function HexDigit(c: char): (r: Option<nat>)
    ensures r.Some? ==> r.value < 16
  {
    if '0' <= c <= '9' then Some(c as nat - '0' as nat)
    else if 'a' <= c <= 'f' then Some(c as nat - 'a' as nat + 10)
    else if 'A' <= c <= 'F' then Some(c as nat - 'A' as nat + 10)
    else None
  }

  /** The code unit written by the four hexadecimal digits of a `\u` escape. */
  function Hex4(s: string): (r: Option<nat>)
    requires |s| == 4
    ensures r.Some? ==> r.value < 0x10000
  {
    var d0, d1, d2, d3 := HexDigit(s[0]), HexDigit(s[1]), HexDigit(s[2]), HexDigit(s[3]);
    if d0.None? || d1.None? || d2.None? || d3.None? then None
    else Some(((d0.value * 16 + d1.value) * 16 + d2.value) * 16 + d3.value)
  }

  /** The character denoted by the two-character escape `\e`, for the eight escapes of
      RFC 8259 section 7 other than `\u`. */
  function ShortEscape(e: char): Option<char>
  {
    if e == '"' then Some('"')
    else if e == '\\' then Some('\\')
    else if e == '/' then Some('/')
    else if e == 'b' then Some('\U{8}')
    else if e == 'f' then Some('\U{c}')
    else if e == 'n' then Some('\n')
    else if e == 'r' then Some('\r')
    else if e == 't' then Some('\t')
    else None
  }

  /** A character that may stand unescaped in a JSON string: anything except quotation
      mark, reverse solidus and the control characters U+0000 to U+001F. */
  predicate Unescaped(c: char)
  {
    c >= ' ' && c != '"' && c != '\\'
  }

  /** Reads the text that follows the opening quotation mark of a JSON string. The result
      is the decoded value and the index of the closing quotation mark, or `None` when no
      well-formed literal starts here. A `\u` escape of a UTF-16 surrogate is refused:
      pairing surrogates is not modelled. */
  function ReadString(s: string): (r: Option<(string, nat)>)
    ensures r.Some? ==> r.value.1 < |s| && s[r.value.1] == '"'
    ensures r.Some? ==> |r.value.0| <= r.value.1
    decreases |s|
  {
    if s == [] then None
    else if s[0] == '"' then Some(([], 0))
    else if s[0] == '\\' then
      if |s| < 2 then None
      else if ShortEscape(s[1]).Some? then Shift([ShortEscape(s[1]).value], 2, s, ReadString(s[2..]))
      else if s[1] == 'u' && |s| >= 6 && Hex4(s[2..6]).Some? then
        var n := Hex4(s[2..6]).value;
        if 0xD800 <= n < 0xE000 then None
        else Shift([n as char], 6, s, ReadString(s[6..]))
      else None
    else if Unescaped(s[0]) then Shift([s[0]], 1, s, ReadString(s[1..]))
    else None
  }

  /** Puts the decoded text `v` of the first `k` characters of `s` in front of what the
      reader found in `s[k..]`. */
  function Shift(v: string, k: nat, s: string, r: Option<(string, nat)>): (q: Option<(string, nat)>)
    requires |v| <= k <= |s|
    requires r.Some? ==> r.value.1 < |s| - k && s[k + r.value.1] == '"' && |r.value.0| <= r.value.1
    ensures q.Some? ==> q.value.1 < |s| && s[q.value.1] == '"' && |q.value.0| <= q.value.1
  {
    if r.None? then None else Some((v + r.value.0, k + r.value.1))
  }
}
