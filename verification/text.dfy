/** The JavaScript string operations the service relies on, with the
    semantics of the ECMAScript built-ins: `trim`, `split` with a one-character
    separator, `join`, `indexOf` and `replace` with a string pattern (which
    replaces the first occurrence only). */
module Text {
  import opened Wrappers

  /** The characters `String.prototype.trim` removes: ECMAScript WhiteSpace
      and LineTerminator code points. */
  predicate IsJsWhitespace(c: char) {
    var n := c as int;
    || n == 0x09 || n == 0x0A || n == 0x0B || n == 0x0C || n == 0x0D
    || n == 0x20 || n == 0xA0 || n == 0x1680
    || (0x2000 <= n <= 0x200A)
    || n == 0x2028 || n == 0x2029 || n == 0x202F || n == 0x205F
    || n == 0x3000 || n == 0xFEFF
  }

  /** `s` neither starts nor ends with whitespace. */
  predicate HasTrimmedEdges(s: string) {
    |s| == 0 || (!IsJsWhitespace(s[0]) && !IsJsWhitespace(s[|s| - 1]))
  }

  function TrimStart(s: string): (r: string)
    ensures |r| <= |s| && r == s[|s| - |r|..]
    ensures forall i :: 0 <= i < |s| - |r| ==> IsJsWhitespace(s[i])
    ensures |r| > 0 ==> !IsJsWhitespace(r[0])
  {
    if |s| > 0 && IsJsWhitespace(s[0]) then TrimStart(s[1..]) else s
  }

  function TrimEnd(s: string): (r: string)
    ensures |r| <= |s| && r == s[..|r|]
    ensures forall i :: |r| <= i < |s| ==> IsJsWhitespace(s[i])
    ensures |r| > 0 ==> !IsJsWhitespace(r[|r| - 1])
  {
    if |s| > 0 && IsJsWhitespace(s[|s| - 1]) then TrimEnd(s[..|s| - 1]) else s
  }

  /** Number of whitespace characters `trim` removes from the front. */
  function LeadingWhitespace(s: string): nat {
    |s| - |TrimStart(s)|
  }

  /** `String.prototype.trim`: the result is the slice of `s` left after
      removing whitespace on both sides, and it has no whitespace at either
      edge. */
  function Trim(s: string): (r: string)
    ensures LeadingWhitespace(s) + |r| <= |s|
    ensures r == s[LeadingWhitespace(s)..LeadingWhitespace(s) + |r|]
    ensures forall i :: 0 <= i < LeadingWhitespace(s) ==> IsJsWhitespace(s[i])
    ensures forall i :: LeadingWhitespace(s) + |r| <= i < |s| ==> IsJsWhitespace(s[i])
    ensures HasTrimmedEdges(r)
  {
    var t := TrimStart(s);
    var r := TrimEnd(t);
    assert |r| > 0 ==> r[0] == t[0];
    r
  }

  /** A string that already has trimmed edges is left alone. */
  lemma TrimKeepsTrimmed(s: string)
    requires HasTrimmedEdges(s)
    ensures Trim(s) == s
  {
  }

  /** Whitespace in front of a string that does not start with whitespace is
      what `trimStart` removes. */
  lemma {:induction false} TrimStartDropsPadding(pad: string, t: string)
    requires forall i :: 0 <= i < |pad| ==> IsJsWhitespace(pad[i])
    requires |t| == 0 || !IsJsWhitespace(t[0])
    ensures TrimStart(pad + t) == t
    decreases |pad|
  {
    if |pad| == 0 {
      assert pad + t == t;
    } else {
      assert (pad + t)[1..] == pad[1..] + t;
      TrimStartDropsPadding(pad[1..], t);
    }
  }

  /** Whitespace after a string that does not end with whitespace is what
      `trimEnd` removes. */
  lemma {:induction false} TrimEndDropsPadding(t: string, pad: string)
    requires forall i :: 0 <= i < |pad| ==> IsJsWhitespace(pad[i])
    requires |t| == 0 || !IsJsWhitespace(t[|t| - 1])
    ensures TrimEnd(t + pad) == t
    decreases |pad|
  {
    if |pad| == 0 {
      assert t + pad == t;
    } else {
      assert (t + pad)[..|t + pad| - 1] == t + pad[..|pad| - 1];
      TrimEndDropsPadding(t, pad[..|pad| - 1]);
    }
  }

  /** Padding a trimmed string with whitespace on either side is undone by
      `trim`. */
  lemma TrimDropsPadding(pad: string, s: string, pad2: string)
    requires forall i :: 0 <= i < |pad| ==> IsJsWhitespace(pad[i])
    requires forall i :: 0 <= i < |pad2| ==> IsJsWhitespace(pad2[i])
    requires HasTrimmedEdges(s)
    ensures Trim(pad + s + pad2) == s
  {
    if |s| == 0 {
      assert pad + s + pad2 == (pad + pad2) + [];
      TrimStartDropsPadding(pad + pad2, []);
    } else {
      assert pad + s + pad2 == pad + (s + pad2);
      TrimStartDropsPadding(pad, s + pad2);
      TrimEndDropsPadding(s, pad2);
    }
  }

  /** `xs.join(sep)`. */
  function Join(xs: seq<string>, sep: string): string
    decreases |xs|
  {
    if |xs| == 0 then ""
    else if |xs| == 1 then xs[0]
    else xs[0] + sep + Join(xs[1..], sep)
  }

  /** `s.split(sep)` for a one-character separator: the pieces between
      separators, so that joining them back gives `s`. */
  function Split(s: string, sep: char): (r: seq<string>)
    ensures |r| >= 1
    ensures forall i :: 0 <= i < |r| ==> sep !in r[i]
    ensures Join(r, [sep]) == s
    decreases |s|
  {
    if |s| == 0 then [""]
    else
      var rest := Split(s[1..], sep);
      if s[0] == sep then
        assert ([""] + rest)[1..] == rest;
        [""] + rest
      else
        var r := [[s[0]] + rest[0]] + rest[1..];
        assert r[1..] == rest[1..];
        JoinConsHead(s[0], rest, [sep]);
        r
  }

  /** Prepending a character to the first piece prepends it to the join. */
  lemma JoinConsHead(c: char, xs: seq<string>, sep: string)
    requires |xs| >= 1
    ensures Join([[c] + xs[0]] + xs[1..], sep) == [c] + Join(xs, sep)
  {
    var ys := [[c] + xs[0]] + xs[1..];
    assert ys[1..] == xs[1..];
  }

  /** Splitting a piece free of the separator, followed by the separator,
      yields that piece first. */
  lemma {:induction false} SplitLeadingPiece(w: string, t: string, sep: char)
    requires sep !in w
    ensures Split(w + [sep] + t, sep) == [w] + Split(t, sep)
    decreases |w|
  {
    if |w| == 0 {
      assert w + [sep] + t == [sep] + t;
      assert ([sep] + t)[1..] == t;
    } else {
      var s := w + [sep] + t;
      assert s[0] == w[0];
      assert s[1..] == w[1..] + [sep] + t;
      SplitLeadingPiece(w[1..], t, sep);
      assert [w[0]] + w[1..] == w;
    }
  }

  /** A piece free of the separator splits into itself alone. */
  lemma {:induction false} SplitSinglePiece(w: string, sep: char)
    requires sep !in w
    ensures Split(w, sep) == [w]
    decreases |w|
  {
    if |w| > 0 {
      SplitSinglePiece(w[1..], sep);
      assert [w[0]] + w[1..] == w;
    }
  }

  /** `split` inverts `join` on non-empty lists of pieces without the
      separator. Together with the ensures of `Split`, the two are inverse
      bijections. */
  lemma {:induction false} SplitJoin(xs: seq<string>, sep: char)
    requires |xs| >= 1
    requires forall i :: 0 <= i < |xs| ==> sep !in xs[i]
    ensures Split(Join(xs, [sep]), sep) == xs
    decreases |xs|
  {
    if |xs| == 1 {
      SplitSinglePiece(xs[0], sep);
    } else {
      SplitJoin(xs[1..], sep);
      SplitLeadingPiece(xs[0], Join(xs[1..], [sep]), sep);
      assert [xs[0]] + xs[1..] == xs;
    }
  }

  /** `s.split(sep).map(x => x.trim())`, the comma-list parser. */
  function SplitTrim(s: string, sep: char): (r: seq<string>)
    ensures |r| == |Split(s, sep)|
    ensures forall i :: 0 <= i < |r| ==> r[i] == Trim(Split(s, sep)[i])
  {
    var pieces := Split(s, sep);
    seq(|pieces|, i requires 0 <= i < |pieces| => Trim(pieces[i]))
  }

  /** Parsing a list written with the separator recovers it, when the entries
      are trimmed and free of the separator. */
  lemma SplitTrimJoin(xs: seq<string>, sep: char)
    requires |xs| >= 1
    requires forall i :: 0 <= i < |xs| ==> sep !in xs[i] && HasTrimmedEdges(xs[i])
    ensures SplitTrim(Join(xs, [sep]), sep) == xs
  {
    SplitJoin(xs, sep);
  }

  /** `p` occurs in `s` starting at index `i`. */
  predicate OccursAt(s: string, p: string, i: int) {
    0 <= i && i + |p| <= |s| && s[i..i + |p|] == p
  }

  function IndexFrom(s: string, p: string, k: nat): (r: Option<nat>)
    ensures r.Some? ==> k <= r.value && OccursAt(s, p, r.value)
    ensures r.Some? ==> forall j :: k <= j < r.value ==> !OccursAt(s, p, j)
    ensures r.None? ==> forall j :: k <= j ==> !OccursAt(s, p, j)
    decreases |s| + 1 - k
  {
    if k + |p| > |s| then None
    else if s[k..k + |p|] == p then Some(k)
    else IndexFrom(s, p, k + 1)
  }

  /** `s.indexOf(p)`, with `None` for -1: the first index where `p` occurs. */
  function IndexOf(s: string, p: string): (r: Option<nat>)
    ensures r.Some? ==> OccursAt(s, p, r.value)
    ensures r.Some? ==> forall j :: 0 <= j < r.value ==> !OccursAt(s, p, j)
    ensures r.None? ==> forall j :: 0 <= j ==> !OccursAt(s, p, j)
  {
    IndexFrom(s, p, 0)
  }

  /** `s.replace(p, q)` with a string pattern `p` and a replacement `q` free of
      `$` patterns: only the first occurrence of `p` is replaced. */
  function ReplaceFirst(s: string, p: string, q: string): (r: string)
    ensures (forall j :: 0 <= j ==> !OccursAt(s, p, j)) ==> r == s
    ensures forall i :: OccursAt(s, p, i) && (forall j :: 0 <= j < i ==> !OccursAt(s, p, j))
                     ==> r == s[..i] + q + s[i + |p|..]
  {
    match IndexOf(s, p)
    case None => s
    case Some(i) => s[..i] + q + s[i + |p|..]
  }

  /** When nothing in `a` starts an occurrence of `p`, the first occurrence in
      `a + p + x` is the one right after `a`, and that is what gets replaced. */
  lemma ReplaceFirstAfter(a: string, p: string, x: string, q: string)
    requires forall j :: 0 <= j < |a| ==> !OccursAt(a + p + x, p, j)
    ensures ReplaceFirst(a + p + x, p, q) == a + q + x
  {
    var s := a + p + x;
    assert s[|a|..|a| + |p|] == p;
    assert OccursAt(s, p, |a|);
    assert s[..|a|] == a;
    assert s[|a| + |p|..] == x;
  }

  /** Only the first occurrence is replaced: a second copy of the pattern
      survives. */
  lemma ReplaceFirstKeepsLater(p: string, x: string, q: string)
    ensures ReplaceFirst(p + x + p, p, q) == q + x + p
  {
    assert p + x + p == [] + p + (x + p);
    ReplaceFirstAfter([], p, x + p, q);
  }

  /** Decimal digits of a natural number, as `String(n)` prints it: no
      leading zero except for 0 itself. */
  function NatToDecimal(n: nat): (r: string)
    ensures |r| >= 1
    ensures forall i :: 0 <= i < |r| ==> '0' <= r[i] <= '9'
    ensures n == 0 ==> r == "0"
    ensures r[0] != '0' || n == 0
    decreases n
  {
    var d := ['0' + (n % 10) as char];
    if n < 10 then d else NatToDecimal(n / 10) + d
  }

  /** Reading the digits back gives the number. */
  function DecimalValue(s: string): int
    decreases |s|
  {
    if |s| == 0 then 0 else 10 * DecimalValue(s[..|s| - 1]) + (s[|s| - 1] as int - '0' as int)
  }

  lemma {:induction false} DecimalRoundTrip(n: nat)
    ensures DecimalValue(NatToDecimal(n)) == n
    decreases n
  {
    var r := NatToDecimal(n);
    if n >= 10 {
      DecimalRoundTrip(n / 10);
      assert r[..|r| - 1] == NatToDecimal(n / 10);
    }
  }
}
