/** The two library string operations EmailService relies on: `String.replace` with
    literal arguments and `String.format` with a single `%s` argument. */
module JavaStrings {
  import opened Wrappers

  /** `s.replace(target, replacement)`: the occurrences of `target` are found from the
      beginning of `s` to its end, never overlap, and each is replaced by `replacement`;
      the inserted text is not searched again. An empty target matches before every
      character and once more at the end. */
  function Replace(s: string, target: string, replacement: string): string
    decreases |s|
  {
    if |target| == 0 then
      if s == [] then replacement
      else replacement + [s[0]] + Replace(s[1..], target, replacement)
    else if |s| < |target| then s
    else if s[..|target|] == target then replacement + Replace(s[|target|..], target, replacement)
    else [s[0]] + Replace(s[1..], target, replacement)
  }

  /** Reference definition: every occurrence of the character `c` becomes `replacement`,
      every other character stays as it is. */
  function SubstChar(s: string, c: char, replacement: string): string
  {
    if s == [] then []
    else (if s[0] == c then replacement else [s[0]]) + SubstChar(s[1..], c, replacement)
  }

  /** With a one-character target, `replace` is a per-character substitution. */
  lemma {:induction false} ReplaceOneChar(s: string, c: char, replacement: string)
    ensures Replace(s, [c], replacement) == SubstChar(s, c, replacement)
  {
    if s != [] {
      ReplaceOneChar(s[1..], c, replacement);
      assert s[..1] == [s[0]];
    }
  }

  /** Substitution distributes over concatenation. */
  lemma {:induction false} SubstCharConcat(a: string, b: string, c: char, replacement: string)
    ensures SubstChar(a + b, c, replacement) == SubstChar(a, c, replacement) + SubstChar(b, c, replacement)
  {
    if a == [] {
      assert a + b == b;
    } else {
      SubstCharConcat(a[1..], b, c, replacement);
      assert (a + b)[1..] == a[1..] + b;
      assert (a + b)[0] == a[0];
    }
  }

  /** `String.format(template, arg)` for one string argument. `%s` inserts the argument
      (only once: a second `%s` has no argument left, where Java throws
      MissingFormatArgumentException) and `%%` inserts a percent sign; any other
      conversion is not modelled and gives `None`, as does a trailing lone `%`. */
  function Format(template: string, arg: string): Option<string>
  {
    FormatFrom(template, Some(arg))
  }

  /** Formats `t` when `pending` holds the argument not yet consumed. */
  function FormatFrom(t: string, pending: Option<string>): Option<string>
    decreases |t|
  {
    if t == [] then Some([])
    else if t[0] != '%' then Prepend([t[0]], FormatFrom(t[1..], pending))
    else if |t| < 2 then None
    else if t[1] == 's' then
      if pending.None? then None else Prepend(pending.value, FormatFrom(t[2..], None))
    else if t[1] == '%' then Prepend("%", FormatFrom(t[2..], pending))
    else None
  }

  function Prepend(p: string, r: Option<string>): Option<string>
  {
    if r.None? then None else Some(p + r.value)
  }

  /** `t` contains no percent sign. */
  predicate NoPercent(t: string)
  {
    forall i :: 0 <= i < |t| ==> t[i] != '%'
  }

  /** Text without a `%` is copied unchanged. */
  lemma {:induction false} FormatPlain(t: string, pending: Option<string>)
    requires NoPercent(t)
    ensures FormatFrom(t, pending) == Some(t)
  {
    if t != [] {
      assert t[0] != '%';
      FormatPlain(t[1..], pending);
      assert t == [t[0]] + t[1..];
    }
  }

  /** A template with one `%s` and no other `%` formats to the plain substitution of the
      argument; the argument itself is never interpreted, whatever `%` it contains. */
  lemma {:induction false} FormatOneSlot(head: string, tail: string, arg: string)
    requires NoPercent(head) && NoPercent(tail)
    ensures Format(head + "%s" + tail, arg) == Some(head + arg + tail)
  {
    FormatOneSlotFrom(head, tail, arg);
  }

  lemma {:induction false} FormatOneSlotFrom(head: string, tail: string, arg: string)
    requires NoPercent(head) && NoPercent(tail)
    ensures FormatFrom(head + "%s" + tail, Some(arg)) == Some(head + arg + tail)
  {
    var t := head + "%s" + tail;
    if head == [] {
      assert t == "%s" + tail;
      assert t[2..] == tail;
      FormatPlain(tail, None);
      assert head + arg + tail == arg + tail;
    } else {
      var h, hs := head[0], head[1..];
      assert h != '%';
      assert t == [h] + (hs + "%s" + tail);
      assert t[0] == h && t[1..] == hs + "%s" + tail;
      FormatOneSlotFrom(hs, tail, arg);
      assert FormatFrom(t, Some(arg)) == Prepend([h], Some(hs + arg + tail));
      assert [h] + (hs + arg + tail) == head + arg + tail;
    }
  }
}
