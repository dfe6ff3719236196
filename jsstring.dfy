/** The JavaScript string built-ins the converter relies on (`trim`, `split`,
    `join`, `indexOf`, `lastIndexOf`, `replace` of one character, and
    number-to-string), over strings as sequences of characters. */
module JsString {

  /** JavaScript's `\s` class, which is also the set `String.prototype.trim`
      removes: the ECMAScript WhiteSpace and LineTerminator code points. */
  predicate IsWhitespace(c: char) {
    c == ' ' || c == '\t' || c == '\n' || c == '\U{000B}' || c == '\U{000C}' || c == '\r'
    || c == '\U{00A0}' || c == '\U{1680}' || ('\U{2000}' <= c <= '\U{200A}')
    || c == '\U{2028}' || c == '\U{2029}' || c == '\U{202F}' || c == '\U{205F}'
    || c == '\U{3000}' || c == '\U{FEFF}'
  }

  predicate AllWhitespace(s: string) {
    forall i :: 0 <= i < |s| ==> IsWhitespace(s[i])
  }

  lemma AllWhitespaceConcat(a: string, b: string)
    requires AllWhitespace(a) && AllWhitespace(b)
    ensures AllWhitespace(a + b)
  {
    assert forall i :: 0 <= i < |a + b| ==> (a + b)[i] == if i < |a| then a[i] else b[i - |a|];
  }

  /** One step of `trimStart`: a leading whitespace character joins the
      removed prefix. */
  lemma TrimStartStep(s: string, r: string)
    requires s != [] && IsWhitespace(s[0])
    requires |r| <= |s| - 1 && r == s[1..][|s| - 1 - |r|..]
    requires AllWhitespace(s[1..][..|s| - 1 - |r|])
    ensures r == s[|s| - |r|..]
    ensures AllWhitespace(s[..|s| - |r|])
  {
    var n := |s| - 1 - |r|;
    forall i | 0 <= i < n + 1
      ensures IsWhitespace(s[i])
    {
      if i > 0 {
        assert s[i] == s[1..][..n][i - 1];
      }
    }
    assert forall i :: 0 <= i < n + 1 ==> s[..n + 1][i] == s[i];
  }

  /** `s.trimStart()`: drops the leading whitespace run. */
  function TrimStart(s: string): (r: string)
    ensures |r| <= |s| && r == s[|s| - |r|..]
    ensures AllWhitespace(s[..|s| - |r|])
    ensures r == [] || !IsWhitespace(r[0])
  {
    if s != [] && IsWhitespace(s[0]) then
      var r := TrimStart(s[1..]);
      TrimStartStep(s, r);
      r
    else
      s
  }

  /** `s.trimEnd()`: drops the trailing whitespace run. */
  function TrimEnd(s: string): (r: string)
    ensures |r| <= |s| && r == s[..|r|]
    ensures AllWhitespace(s[|r|..])
    ensures r == [] || !IsWhitespace(r[|r| - 1])
  {
    if s != [] && IsWhitespace(s[|s| - 1]) then TrimEnd(s[..|s| - 1]) else s
  }

  /** `s.trim()`: the result is the middle of `s` once both whitespace runs
      are gone; it is empty exactly when `s` is all whitespace. */
  function Trim(s: string): (r: string)
    ensures |r| <= |s|
    ensures r == [] <==> AllWhitespace(s)
    ensures r != [] ==> !IsWhitespace(r[0]) && !IsWhitespace(r[|r| - 1])
  {
    var t := TrimStart(s);
    var r := TrimEnd(t);
    assert r == [] <==> AllWhitespace(s) by {
      if r != [] {
        assert r[0] == s[|s| - |t|] && !IsWhitespace(r[0]);
      } else {
        assert t == [];
        assert s[..|s|] == s;
      }
    }
    r
  }

  /** `trim` removes only whitespace, at either end: the result is what is
      left of `s` once a whitespace prefix and a whitespace suffix are cut. */
  lemma TrimIsMiddle(s: string)
    ensures var r := Trim(s); var t := TrimStart(s);
      && AllWhitespace(s[..|s| - |t|]) && t == s[|s| - |t|..]
      && r <= t && AllWhitespace(t[|r|..])
  {
  }

  /** `s.split(sep)` for a non-empty separator: scanning left to right, every
      occurrence of `sep` not overlapping an earlier one ends a piece. */
  function SplitOn(s: string, sep: string): (r: seq<string>)
    requires sep != []
    ensures |r| >= 1
    decreases |s|
  {
    if s == [] then [""]
    else if sep <= s then [""] + SplitOn(s[|sep|..], sep)
    else
      var rest := SplitOn(s[1..], sep);
      [[s[0]] + rest[0]] + rest[1..]
  }

  /** `parts.join(sep)`. */
  function Join(parts: seq<string>, sep: string): string
  {
    if |parts| == 0 then ""
    else if |parts| == 1 then parts[0]
    else parts[0] + sep + Join(parts[1..], sep)
  }

  /** `xs.map(f).join('')`: the images of the elements, concatenated in
      order. */
  function ConcatMap<T>(f: T -> string, xs: seq<T>): string
  {
    if xs == [] then "" else ConcatMap(f, xs[..|xs| - 1]) + f(xs[|xs| - 1])
  }

  /** Mapping and concatenating distributes over concatenation. */
  lemma {:induction false} ConcatMapAppend<T>(f: T -> string, a: seq<T>, b: seq<T>)
    ensures ConcatMap(f, a + b) == ConcatMap(f, a) + ConcatMap(f, b)
    decreases |b|
  {
    if b == [] {
      assert a + b == a;
    } else {
      var b' := b[..|b| - 1];
      ConcatMapAppend(f, a, b');
      assert (a + b)[..|a + b| - 1] == a + b';
      assert (a + b)[|a + b| - 1] == b[|b| - 1];
    }
  }

  /** Joining the pieces of a split gives the string back. */
  lemma {:induction false} JoinSplit(s: string, sep: string)
    requires sep != []
    ensures Join(SplitOn(s, sep), sep) == s
    decreases |s|
  {
    if s == [] {
    } else if sep <= s {
      JoinSplit(s[|sep|..], sep);
      JoinSplitAtSeparator(s, sep);
    } else {
      JoinSplit(s[1..], sep);
      JoinSplitAtChar(s, sep);
    }
  }

  /** The step of `JoinSplit` where the string starts with the separator. */
  lemma JoinSplitAtSeparator(s: string, sep: string)
    requires sep != [] && sep <= s
    requires Join(SplitOn(s[|sep|..], sep), sep) == s[|sep|..]
    ensures Join(SplitOn(s, sep), sep) == s
  {
    var tail := s[|sep|..];
    var rest := SplitOn(tail, sep);
    assert SplitOn(s, sep) == [""] + rest;
    JoinCons("", rest, sep);
    assert s == s[..|sep|] + tail;
    assert s[..|sep|] == sep;
    assert "" + sep + tail == sep + tail;
  }

  /** The step of `JoinSplit` where the string does not start with the
      separator. */
  lemma JoinSplitAtChar(s: string, sep: string)
    requires sep != [] && s != [] && !(sep <= s)
    requires Join(SplitOn(s[1..], sep), sep) == s[1..]
    ensures Join(SplitOn(s, sep), sep) == s
  {
    var tail := s[1..];
    var rest := SplitOn(tail, sep);
    assert SplitOn(s, sep) == [[s[0]] + rest[0]] + rest[1..];
    JoinFirstGrows(s[0], rest, sep);
    assert s == [s[0]] + tail;
  }

  /** Joining one more part appends the separator and that part. */
  lemma {:induction false} JoinSnoc(parts: seq<string>, x: string, sep: string)
    requires |parts| >= 1
    ensures Join(parts + [x], sep) == Join(parts, sep) + sep + x
  {
    if |parts| == 1 {
      assert (parts + [x])[1..] == [x];
    } else {
      assert (parts + [x])[1..] == parts[1..] + [x];
      JoinSnoc(parts[1..], x, sep);
    }
  }

  /** Joining a list with a head: the head, the separator, then the rest. */
  lemma JoinCons(x: string, rest: seq<string>, sep: string)
    requires |rest| >= 1
    ensures Join([x] + rest, sep) == x + sep + Join(rest, sep)
  {
    assert ([x] + rest)[1..] == rest;
  }

  /** Prepending a character to the first piece prepends it to the join. */
  lemma JoinFirstGrows(c: char, rest: seq<string>, sep: string)
    requires |rest| >= 1
    ensures Join([[c] + rest[0]] + rest[1..], sep) == [c] + Join(rest, sep)
  {
    var r := [[c] + rest[0]] + rest[1..];
    if |rest| > 1 {
      assert r[1..] == rest[1..];
    }
  }

  /** Splitting on a one-character separator undoes a join of pieces that do
      not contain that character. */
  lemma {:induction false} SplitJoin(parts: seq<string>, c: char)
    requires |parts| >= 1
    requires forall i :: 0 <= i < |parts| ==> c !in parts[i]
    ensures SplitOn(Join(parts, [c]), [c]) == parts
    decreases |parts|, |parts[0]|
  {
    var p := parts[0];
    if p == [] {
      if |parts| > 1 {
        SplitJoin(parts[1..], c);
        SplitJoinEmptyHead(parts, c);
      }
    } else {
      var parts' := [p[1..]] + parts[1..];
      forall i | 0 <= i < |parts'|
        ensures c !in parts'[i]
      {
        if i == 0 {
          assert forall x :: x in p[1..] ==> x in p;
        } else {
          assert parts'[i] == parts[i];
        }
      }
      SplitJoin(parts', c);
      assert p[0] in p;
      SplitJoinCharHead(parts, c);
    }
  }

  /** The step of `SplitJoin` whose first piece is empty. */
  lemma SplitJoinEmptyHead(parts: seq<string>, c: char)
    requires |parts| >= 2 && parts[0] == []
    requires SplitOn(Join(parts[1..], [c]), [c]) == parts[1..]
    ensures SplitOn(Join(parts, [c]), [c]) == parts
  {
    var tail := Join(parts[1..], [c]);
    assert Join(parts, [c]) == [c] + tail;
    assert [c] <= [c] + tail;
    assert ([c] + tail)[|[c]|..] == tail;
    assert parts == [""] + parts[1..];
  }

  /** The step of `SplitJoin` whose first piece starts with a character
      other than the separator. */
  lemma SplitJoinCharHead(parts: seq<string>, c: char)
    requires |parts| >= 1 && parts[0] != [] && parts[0][0] != c
    requires var parts' := [parts[0][1..]] + parts[1..];
      SplitOn(Join(parts', [c]), [c]) == parts'
    ensures SplitOn(Join(parts, [c]), [c]) == parts
  {
    var p := parts[0];
    var parts' := [p[1..]] + parts[1..];
    assert p == [p[0]] + p[1..];
    assert parts == [[p[0]] + parts'[0]] + parts'[1..];
    JoinFirstGrows(p[0], parts', [c]);
    var tail := Join(parts', [c]);
    var s := Join(parts, [c]);
    assert s == [p[0]] + tail;
    assert s[0] == p[0] && s[1..] == tail;
    assert !([c] <= s);
    assert SplitOn(s, [c]) == [[p[0]] + parts'[0]] + parts'[1..];
  }

  /** Every piece of a one-character split is free of that character. */
  lemma {:induction false} SplitPiecesLackSeparator(s: string, c: char)
    ensures forall i :: 0 <= i < |SplitOn(s, [c])| ==> c !in SplitOn(s, [c])[i]
    decreases |s|
  {
    if s == [] {
    } else if [c] <= s {
      SplitPiecesLackSeparator(s[1..], c);
      assert s[|[c]|..] == s[1..];
    } else {
      SplitPiecesLackSeparator(s[1..], c);
      var rest := SplitOn(s[1..], [c]);
      assert s[0] != c;
      var r := SplitOn(s, [c]);
      assert r == [[s[0]] + rest[0]] + rest[1..];
      forall i | 0 <= i < |r| ensures c !in r[i] {
        if i == 0 {
          assert c !in rest[0];
        } else {
          assert r[i] == rest[i];
        }
      }
    }
  }

  /** The last piece of a one-character split is the longest suffix free of
      that character: the whole string when the split has one piece, and
      otherwise the part after the last separator. */
  lemma {:induction false} LastPieceIsSuffix(s: string, c: char)
    ensures LastPieceShape(s, c)
    decreases |s|
  {
    if s != [] {
      LastPieceIsSuffix(s[1..], c);
      if s[0] == c {
        LastPieceAtSeparator(s, c);
      } else {
        LastPieceAtChar(s, c);
      }
    }
  }

  /** What `LastPieceIsSuffix` states about one string. */
  predicate LastPieceShape(s: string, c: char)
  {
    var ps := SplitOn(s, [c]); var last := ps[|ps| - 1];
    |last| <= |s| && last == s[|s| - |last|..]
    && (|ps| == 1 ==> last == s)
    && (|ps| > 1 ==> |last| < |s| && s[|s| - |last| - 1] == c)
  }

  /** The step of `LastPieceIsSuffix` where the string starts with the
      separator. */
  lemma LastPieceAtSeparator(s: string, c: char)
    requires s != [] && s[0] == c
    requires LastPieceShape(s[1..], c)
    ensures LastPieceShape(s, c)
  {
    var tail := s[1..];
    assert s[..1] == [c];
    assert s[|[c]|..] == tail;
    var rest := SplitOn(tail, [c]);
    var ps := SplitOn(s, [c]);
    assert ps == [""] + rest;
    var last := rest[|rest| - 1];
    assert ps[|ps| - 1] == last;
    assert s[|s| - |last|..] == tail[|tail| - |last|..];
    if |rest| > 1 {
      assert s[|s| - |last| - 1] == tail[|tail| - |last| - 1];
    }
  }

  /** The step of `LastPieceIsSuffix` where the string does not start with
      the separator. */
  lemma LastPieceAtChar(s: string, c: char)
    requires s != [] && s[0] != c
    requires LastPieceShape(s[1..], c)
    ensures LastPieceShape(s, c)
  {
    var tail := s[1..];
    assert !([c] <= s);
    var rest := SplitOn(tail, [c]);
    var ps := SplitOn(s, [c]);
    assert ps == [[s[0]] + rest[0]] + rest[1..];
    if |rest| > 1 {
      var last := rest[|rest| - 1];
      assert ps[|ps| - 1] == last;
      assert s[|s| - |last|..] == tail[|tail| - |last|..];
      assert s[|s| - |last| - 1] == tail[|tail| - |last| - 1];
    } else {
      assert s == [s[0]] + tail;
    }
  }

  /** The first piece of a split of a string that does not begin with the
      separator begins with the string's first character. */
  lemma FirstPieceStart(s: string, sep: string)
    requires sep != [] && s != [] && !(sep <= s)
    ensures SplitOn(s, sep)[0] != [] && SplitOn(s, sep)[0][0] == s[0]
  {
  }

  /** `t` occurs in `s` starting at position `k`. */
  predicate OccursAt(s: string, t: string, k: int) {
    0 <= k && k + |t| <= |s| && s[k..k + |t|] == t
  }

  /** `s.indexOf(t, from)`: the first position at or after `from` where `t`
      occurs, or -1. */
  function IndexOfFrom(s: string, t: string, from: nat): (r: int)
    requires from <= |s|
    ensures r == -1 || (from <= r && OccursAt(s, t, r))
    ensures forall k :: from <= k && (r == -1 || k < r) ==> !OccursAt(s, t, k)
    decreases |s| - from
  {
    if from + |t| > |s| then -1
    else if s[from..from + |t|] == t then from
    else IndexOfFrom(s, t, from + 1)
  }

  /** `s.indexOf(t)`. */
  function IndexOf(s: string, t: string): int
  {
    IndexOfFrom(s, t, 0)
  }

  /** `s.lastIndexOf(c)` for a one-character needle. */
  function LastIndexOf(s: string, c: char): (r: int)
    ensures -1 <= r < |s|
    ensures r >= 0 ==> s[r] == c
    ensures forall k :: r < k < |s| ==> s[k] != c
  {
    if s == [] then -1
    else if s[|s| - 1] == c then |s| - 1
    else LastIndexOf(s[..|s| - 1], c)
  }

  /** `s.replace(/a/g, b)` for single characters. */
  function ReplaceChar(s: string, a: char, b: char): (r: string)
    ensures |r| == |s|
    ensures forall i :: 0 <= i < |s| ==> r[i] == if s[i] == a then b else s[i]
    ensures a != b ==> a !in r
  {
    if s == [] then [] else [if s[0] == a then b else s[0]] + ReplaceChar(s[1..], a, b)
  }

  /** The number of occurrences of `c` in `s`. */
  function CountChar(s: string, c: char): nat
  {
    if s == [] then 0 else (if s[0] == c then 1 else 0) + CountChar(s[1..], c)
  }

  function DigitChar(d: nat): char
    requires d < 10
  {
    "0123456789"[d]
  }

  predicate IsDigit(c: char) {
    '0' <= c <= '9'
  }

  function DigitValue(c: char): nat
    requires IsDigit(c)
  {
    (c as int - '0' as int) as nat
  }

  /** `String(n)` for a non-negative integer: decimal, no leading zeros. */
  function NatToString(n: nat): (r: string)
    ensures r != []
    ensures forall i :: 0 <= i < |r| ==> IsDigit(r[i])
    ensures n > 0 ==> r[0] != '0'
  {
    if n < 10 then [DigitChar(n)] else NatToString(n / 10) + [DigitChar(n % 10)]
  }

  /** `String(n)` for an integer. */
  function IntToString(n: int): string
  {
    if n < 0 then "-" + NatToString(-n) else NatToString(n)
  }

  /** The value of a run of decimal digits. */
  function ParseDigits(ds: string): nat
    requires forall i :: 0 <= i < |ds| ==> IsDigit(ds[i])
  {
    if ds == [] then 0 else 10 * ParseDigits(ds[..|ds| - 1]) + DigitValue(ds[|ds| - 1])
  }

  lemma {:induction false} ParseDigitsPositive(ds: string)
    requires forall i :: 0 <= i < |ds| ==> IsDigit(ds[i])
    requires ds != [] && ds[0] != '0'
    ensures ParseDigits(ds) > 0
  {
    if |ds| > 1 {
      ParseDigitsPositive(ds[..|ds| - 1]);
    }
  }

  /** Each digit character is printed back as itself. */
  lemma DigitCharValue(c: char)
    requires IsDigit(c)
    ensures DigitChar(DigitValue(c)) == c
  {
  }

  lemma DivModTen(a: nat, d: nat)
    requires d < 10
    ensures (10 * a + d) / 10 == a && (10 * a + d) % 10 == d
  {
  }

  /** Printing a parsed digit run without leading zeros gives the run back. */
  lemma {:induction false} NatToStringParseDigits(ds: string)
    requires forall i :: 0 <= i < |ds| ==> IsDigit(ds[i])
    requires ds != [] && ds[0] != '0'
    ensures NatToString(ParseDigits(ds)) == ds
  {
    var init := ds[..|ds| - 1];
    var last := ds[|ds| - 1];
    DigitCharValue(last);
    if |ds| > 1 {
      ParseDigitsPositive(init);
      NatToStringParseDigits(init);
      var p := ParseDigits(init);
      var d := DigitValue(last);
      var n := ParseDigits(ds);
      assert n == 10 * p + d;
      DivModTen(p, d);
      assert NatToString(n) == NatToString(p) + [DigitChar(d)];
      assert ds == init + [last];
    }
  }
}
