/** `escapeJson` of EmailService: four literal `replace` passes that prepare text for the
    inside of a JSON string literal. */
module JsonEscape {
  import opened Wrappers
  import opened JavaStrings
  import opened JsonString

  /** The escaper as the source writes it: backslash first, then quotation mark, line
      feed and carriage return. */
  function EscapeJson(text: string): string
  {
    Replace(Replace(Replace(Replace(text, "\\", "\\\\"), "\"", "\\\""), "\n", "\\n"), "\r", "\\r")
  }

  /** The four characters the escaper rewrites. */
  predicate IsSpecial(c: char)
  {
    c == '\\' || c == '"' || c == '\n' || c == '\r'
  }

  /** Single-pass reference escape of one character. */
  function EscapeChar(c: char): string
  {
    if c == '\\' then "\\\\"
    else if c == '"' then "\\\""
    else if c == '\n' then "\\n"
    else if c == '\r' then "\\r"
    else [c]
  }

  /** Single-pass reference escape of a string, character by character. */
  function EscapeMap(s: string): string
  {
    if s == [] then [] else EscapeChar(s[0]) + EscapeMap(s[1..])
  }

  /** The number of characters of `s` that the escaper rewrites. */
  function CountSpecial(s: string): nat
  {
    if s == [] then 0 else (if IsSpecial(s[0]) then 1 else 0) + CountSpecial(s[1..])
  }

  /** The four passes, each as a per-character substitution. */
  function SubstChain(s: string): string
  {
    SubstChar(SubstChar(SubstChar(SubstChar(s, '\\', "\\\\"), '"', "\\\""), '\n', "\\n"), '\r', "\\r")
  }

  lemma SubstCharSingle(x: char, c: char, replacement: string)
    ensures SubstChar([x], c, replacement) == if x == c then replacement else [x]
  {
    assert [x][1..] == [];
  }

  lemma {:induction false} SubstCharAbsent(s: string, c: char, replacement: string)
    requires c !in s
    ensures SubstChar(s, c, replacement) == s
  {
    if s != [] {
      assert forall x :: x in s[1..] ==> x in s;
      SubstCharAbsent(s[1..], c, replacement);
      assert s == [s[0]] + s[1..];
    }
  }

  lemma SubstChainOnChar(c: char)
    ensures SubstChain([c]) == EscapeChar(c)
  {
    var s1 := SubstChar([c], '\\', "\\\\");
    SubstCharSingle(c, '\\', "\\\\");
    if c == '\\' {
      SubstCharAbsent(s1, '"', "\\\"");
      SubstCharAbsent(s1, '\n', "\\n");
      SubstCharAbsent(s1, '\r', "\\r");
    } else {
      var s2 := SubstChar(s1, '"', "\\\"");
      SubstCharSingle(c, '"', "\\\"");
      if c == '"' {
        SubstCharAbsent(s2, '\n', "\\n");
        SubstCharAbsent(s2, '\r', "\\r");
      } else {
        var s3 := SubstChar(s2, '\n', "\\n");
        SubstCharSingle(c, '\n', "\\n");
        if c == '\n' {
          SubstCharAbsent(s3, '\r', "\\r");
        } else {
          SubstCharSingle(c, '\r', "\\r");
        }
      }
    }
  }

  /** Each pass leaves what the earlier passes inserted alone, so the chain is the
      per-character escape. This holds because backslash is replaced first: a later pass
      only ever inserts a backslash in front of a character of its own. */
  lemma {:induction false} EscapeJsonIsPerCharacter(s: string)
    ensures EscapeJson(s) == EscapeMap(s)
  {
    var s1 := SubstChar(s, '\\', "\\\\");
    var s2 := SubstChar(s1, '"', "\\\"");
    var s3 := SubstChar(s2, '\n', "\\n");
    ReplaceOneChar(s, '\\', "\\\\");
    ReplaceOneChar(s1, '"', "\\\"");
    ReplaceOneChar(s2, '\n', "\\n");
    ReplaceOneChar(s3, '\r', "\\r");
    SubstChainIsPerCharacter(s);
  }

  lemma {:induction false} SubstChainIsPerCharacter(s: string)
    ensures SubstChain(s) == EscapeMap(s)
  {
    if s != [] {
      var c, t := s[0], s[1..];
      assert s == [c] + t;
      var a1, b1 := SubstChar([c], '\\', "\\\\"), SubstChar(t, '\\', "\\\\");
      SubstCharConcat([c], t, '\\', "\\\\");
      var a2, b2 := SubstChar(a1, '"', "\\\""), SubstChar(b1, '"', "\\\"");
      SubstCharConcat(a1, b1, '"', "\\\"");
      var a3, b3 := SubstChar(a2, '\n', "\\n"), SubstChar(b2, '\n', "\\n");
      SubstCharConcat(a2, b2, '\n', "\\n");
      SubstCharConcat(a3, b3, '\r', "\\r");
      SubstChainOnChar(c);
      SubstChainIsPerCharacter(t);
    }
  }

  /** The decoded character of the escape `\e` that the escaper produces. */
  function UnescapeChar(e: char): Option<char>
  {
    if e == '\\' then Some('\\')
    else if e == '"' then Some('"')
    else if e == 'n' then Some('\n')
    else if e == 'r' then Some('\r')
    else None
  }

  /** Inverse of the escaper: decodes `\\`, `\"`, `\n` and `\r`, keeps every other
      character, and refuses a raw quotation mark, line feed or carriage return, a lone
      trailing backslash and any other escape, none of which the escaper emits. */
  function Unescape(r: string): Option<string>
    decreases |r|
  {
    if r == [] then Some([])
    else if r[0] == '\\' then
      if |r| < 2 || UnescapeChar(r[1]).None? then None
      else Cons(UnescapeChar(r[1]).value, Unescape(r[2..]))
    else if IsSpecial(r[0]) then None
    else Cons(r[0], Unescape(r[1..]))
  }

  function Cons(c: char, r: Option<string>): Option<string>
  {
    if r.None? then None else Some([c] + r.value)
  }

  /** Round trip: decoding the escaped text gives back the input. */
  lemma {:induction false} UnescapeEscapeJson(s: string)
    ensures Unescape(EscapeJson(s)) == Some(s)
  {
    EscapeJsonIsPerCharacter(s);
    UnescapeEscapeMap(s);
  }

  lemma {:induction false} UnescapeEscapeMap(s: string)
    ensures Unescape(EscapeMap(s)) == Some(s)
  {
    if s != [] {
      var e, t := EscapeChar(s[0]), EscapeMap(s[1..]);
      UnescapeEscapeMap(s[1..]);
      assert (e + t)[|e|..] == t;
      assert s == [s[0]] + s[1..];
    }
  }

  /** The other direction: every text the decoder accepts is the escaped form of what
      it decodes to, so the escaper is a bijection onto the texts `Unescape` accepts. */
  lemma {:induction false} EscapeJsonOfUnescape(r: string, s: string)
    requires Unescape(r) == Some(s)
    ensures EscapeJson(s) == r
  {
    EscapeJsonIsPerCharacter(s);
    EscapeMapOfUnescape(r, s);
  }

  lemma {:induction false} EscapeMapOfUnescape(r: string, s: string)
    requires Unescape(r) == Some(s)
    ensures EscapeMap(s) == r
    decreases |r|
  {
    if r != [] {
      var k := if r[0] == '\\' then 2 else 1;
      var rest := Unescape(r[k..]);
      assert rest.Some? && s == [s[0]] + rest.value;
      EscapeMapOfUnescape(r[k..], rest.value);
      assert s[1..] == rest.value;
      assert r == r[..k] + r[k..];
    }
  }

  /** A quotation mark and a line feed come out as two-character escapes. */
  lemma EscapeJsonExample(s: string)
    requires s == "a\"b\nc"
    ensures EscapeJson(s) == "a\\\"b\\nc"
  {
    EscapeJsonIsPerCharacter(s);
    assert s[1..] == "\"b\nc" && s[2..] == "b\nc" && s[3..] == "\nc" && s[4..] == "c" && s[5..] == [];
    assert EscapeMap(s[4..]) == "c";
    assert EscapeMap(s[3..]) == "\\nc";
    assert EscapeMap(s[2..]) == "b\\nc";
    assert EscapeMap(s[1..]) == "\\\"b\\nc";
  }

  /** Distinct inputs have distinct escaped forms. */
  lemma EscapeJsonInjective(a: string, b: string)
    requires EscapeJson(a) == EscapeJson(b)
    ensures a == b
  {
    UnescapeEscapeJson(a);
    UnescapeEscapeJson(b);
  }

  /** Each rewritten character grows by exactly one. */
  lemma {:induction false} EscapeJsonLength(s: string)
    ensures |EscapeJson(s)| == |s| + CountSpecial(s)
  {
    EscapeJsonIsPerCharacter(s);
    EscapeMapLength(s);
  }

  lemma {:induction false} EscapeMapLength(s: string)
    ensures |EscapeMap(s)| == |s| + CountSpecial(s)
  {
    if s != [] {
      EscapeMapLength(s[1..]);
    }
  }

  lemma {:induction false} CountSpecialZero(s: string)
    ensures CountSpecial(s) == 0 <==> forall c :: c in s ==> !IsSpecial(c)
  {
    if s != [] {
      CountSpecialZero(s[1..]);
      assert forall c :: c in s <==> c == s[0] || c in s[1..];
    }
  }

  /** The escaper returns its input unchanged exactly when the input holds none of the
      four rewritten characters. */
  lemma {:induction false} EscapeJsonUnchanged(s: string)
    ensures EscapeJson(s) == s <==> forall c :: c in s ==> !IsSpecial(c)
  {
    EscapeJsonIsPerCharacter(s);
    EscapeMapLength(s);
    CountSpecialZero(s);
    if forall c :: c in s ==> !IsSpecial(c) {
      EscapeMapIdentity(s);
    }
  }

  lemma {:induction false} EscapeMapIdentity(s: string)
    requires forall c :: c in s ==> !IsSpecial(c)
    ensures EscapeMap(s) == s
  {
    if s != [] {
      assert s[0] in s;
      assert forall c :: c in s[1..] ==> c in s;
      EscapeMapIdentity(s[1..]);
      assert s == [s[0]] + s[1..];
    }
  }

  /** No raw line feed or carriage return survives the escaper. */
  lemma {:induction false} EscapeJsonNoLineBreaks(s: string)
    ensures '\n' !in EscapeJson(s) && '\r' !in EscapeJson(s)
  {
    EscapeJsonIsPerCharacter(s);
    EscapeMapNoLineBreaks(s);
  }

  lemma {:induction false} EscapeMapNoLineBreaks(s: string)
    ensures '\n' !in EscapeMap(s) && '\r' !in EscapeMap(s)
  {
    if s != [] {
      EscapeMapNoLineBreaks(s[1..]);
      var e := EscapeChar(s[0]);
      assert '\n' !in e && '\r' !in e;
      assert forall c :: c in e + EscapeMap(s[1..]) ==> c in e || c in EscapeMap(s[1..]);
    }
  }

  /** The number of consecutive backslashes just before position `i` of `r`. */
  function BackslashRun(r: string, i: nat): nat
    requires i <= |r|
  {
    if i == 0 || r[i - 1] != '\\' then 0 else 1 + BackslashRun(r, i - 1)
  }

  /** Every quotation mark in `r` is escaped (an odd run of backslashes precedes it, so
      the last of them is not itself escaped), and `r` does not end inside an escape. */
  predicate QuotesEscaped(r: string)
  {
    (forall i :: 0 <= i < |r| && r[i] == '"' ==> BackslashRun(r, i) % 2 == 1)
    && BackslashRun(r, |r|) % 2 == 0
  }

  lemma {:induction false} BackslashRunPrefix(a: string, b: string, i: nat)
    requires i <= |a|
    ensures BackslashRun(a + b, i) == BackslashRun(a, i)
  {
    if i > 0 && a[i - 1] == '\\' {
      BackslashRunPrefix(a, b, i - 1);
    }
  }

  /** After a prefix that ends outside an escape, runs keep their parity. */
  lemma {:induction false} BackslashRunAfter(a: string, b: string, j: nat)
    requires j <= |b| && BackslashRun(a, |a|) % 2 == 0
    ensures BackslashRun(a + b, |a| + j) % 2 == BackslashRun(b, j) % 2
  {
    if j == 0 {
      BackslashRunPrefix(a, b, |a|);
    } else {
      assert (a + b)[|a| + j - 1] == b[j - 1];
      if b[j - 1] == '\\' {
        BackslashRunAfter(a, b, j - 1);
      }
    }
  }

  lemma QuotesEscapedConcat(a: string, b: string)
    requires QuotesEscaped(a) && QuotesEscaped(b)
    ensures QuotesEscaped(a + b)
  {
    forall i | 0 <= i < |a + b| && (a + b)[i] == '"'
      ensures BackslashRun(a + b, i) % 2 == 1
    {
      QuoteInConcat(a, b, i);
    }
    BackslashRunAfter(a, b, |b|);
  }

  lemma QuoteInConcat(a: string, b: string, i: nat)
    requires QuotesEscaped(a) && QuotesEscaped(b)
    requires i < |a + b| && (a + b)[i] == '"'
    ensures BackslashRun(a + b, i) % 2 == 1
  {
    if i < |a| {
      assert a[i] == '"';
      BackslashRunPrefix(a, b, i);
    } else {
      assert b[i - |a|] == '"';
      BackslashRunAfter(a, b, i - |a|);
    }
  }

  lemma EscapeCharQuotesEscaped(c: char)
    ensures QuotesEscaped(EscapeChar(c))
  {
    var e := EscapeChar(c);
    if c == '"' {
      assert BackslashRun(e, 1) == 1;
    } else if c == '\\' {
      assert BackslashRun(e, 1) == 1;
    }
  }

  /** Every quotation mark the escaper emits is escaped by a backslash that is not itself
      escaped, and the output never ends in a dangling backslash, so it can be closed by a
      quotation mark. */
  lemma {:induction false} EscapeJsonQuotesEscaped(s: string)
    ensures QuotesEscaped(EscapeJson(s))
  {
    EscapeJsonIsPerCharacter(s);
    EscapeMapQuotesEscaped(s);
  }

  lemma {:induction false} EscapeMapQuotesEscaped(s: string)
    ensures QuotesEscaped(EscapeMap(s))
  {
    if s != [] {
      EscapeCharQuotesEscaped(s[0]);
      EscapeMapQuotesEscaped(s[1..]);
      QuotesEscapedConcat(EscapeChar(s[0]), EscapeMap(s[1..]));
    }
  }

  /** Text the escaper makes safe for a JSON string: its only control characters are
      line feed and carriage return. Other control characters, such as a tab, pass
      through the escaper raw. */
  predicate EscapableControls(s: string)
  {
    forall c :: c in s ==> c >= ' ' || c == '\n' || c == '\r'
  }

  lemma EscapableByIndex(s: string)
    requires forall i :: 0 <= i < |s| ==> s[i] >= ' ' || s[i] == '\n' || s[i] == '\r'
    ensures EscapableControls(s)
  {
  }

  lemma EscapableConcat(a: string, b: string)
    ensures EscapableControls(a + b) <==> EscapableControls(a) && EscapableControls(b)
  {
    assert forall c :: c in a + b <==> c in a || c in b;
  }

  lemma EscapableCons(s: string)
    requires s != []
    ensures EscapableControls(s) <==> (s[0] >= ' ' || s[0] == '\n' || s[0] == '\r') && EscapableControls(s[1..])
  {
    assert s == [s[0]] + s[1..];
    EscapableConcat([s[0]], s[1..]);
    assert s[0] in [s[0]];
  }

  /** Read back by a JSON parser after a closing quotation mark, the escaped text is
      exactly the input, ending at that quotation mark; and the parser refuses it exactly
      when the input holds a control character other than line feed and carriage return. */
  lemma {:induction false} ReadEscapeJson(s: string, rest: string)
    ensures ReadString(EscapeJson(s) + "\"" + rest)
         == if EscapableControls(s) then Some((s, |EscapeJson(s)|)) else None
  {
    EscapeJsonIsPerCharacter(s);
    ReadEscapeMap(s, rest);
  }

  /** What the reader does with the escape of one character followed by `x`. */
  lemma ReadEscapeChar(c: char, x: string)
    ensures (c >= ' ' || c == '\n' || c == '\r') && ReadString(x).Some? ==>
      ReadString(EscapeChar(c) + x) == Some(([c] + ReadString(x).value.0, |EscapeChar(c)| + ReadString(x).value.1))
    ensures !((c >= ' ' || c == '\n' || c == '\r') && ReadString(x).Some?) ==> ReadString(EscapeChar(c) + x) == None
  {
    var e := EscapeChar(c);
    var q := e + x;
    assert q[|e|..] == x;
    if IsSpecial(c) {
      assert q[0] == '\\' && q[1] == e[1] && ShortEscape(q[1]) == Some(c);
    } else {
      assert q[0] == c;
    }
  }

  lemma {:induction false} ReadEscapeMap(s: string, rest: string)
    ensures ReadString(EscapeMap(s) + "\"" + rest)
         == if EscapableControls(s) then Some((s, |EscapeMap(s)|)) else None
  {
    if s == [] {
      assert (EscapeMap(s) + "\"" + rest)[0] == '"';
    } else {
      var c, e, t := s[0], EscapeChar(s[0]), EscapeMap(s[1..]);
      var x := t + "\"" + rest;
      ReadEscapeMap(s[1..], rest);
      assert EscapeMap(s) + "\"" + rest == e + x;
      ReadEscapeChar(c, x);
      EscapableCons(s);
      if EscapableControls(s) {
        assert s == [c] + s[1..];
      }
    }
  }
}
