/**
 * The JavaScript string primitives the dashboard relies on, written out on `seq<char>`:
 * `trim`/`trimStart`/`trimEnd`, `includes`, `indexOf`, `split` on one character,
 * `split(/\r?\n/)`, global literal `replace`, `parseInt(s, 10)`, `String(n)` and
 * `padStart(2, '0')`.
 */
module Text {
  import opened Wrappers

  /** The characters JavaScript's `trim` and the regular-expression class `\s` treat as white space. */
  predicate IsWhite(c: char) {
    || c == ' ' || c == '\t' || c == '\n' || c == '\r' || c == '\U{B}' || c == '\U{C}'
    || c == '\U{A0}' || c == '\U{1680}' || ('\U{2000}' <= c <= '\U{200A}')
    || c == '\U{2028}' || c == '\U{2029}' || c == '\U{202F}' || c == '\U{205F}'
    || c == '\U{3000}' || c == '\U{FEFF}'
  }

  predicate AllWhite(s: string) {
    forall i :: 0 <= i < |s| ==> IsWhite(s[i])
  }

  /** `s.trimStart()` */
  function TrimStart(s: string): (r: string)
    ensures |r| <= |s|
  {
    if |s| > 0 && IsWhite(s[0]) then TrimStart(s[1..]) else s
  }

  /** `s.trimEnd()`, also `s.replace(/\s*$/, '')` */
  function TrimEnd(s: string): (r: string)
    ensures |r| <= |s|
  {
    if |s| > 0 && IsWhite(s[|s| - 1]) then TrimEnd(s[..|s| - 1]) else s
  }

  /** Concatenation regroups freely. */
  lemma AppendAssoc<T>(a: seq<T>, b: seq<T>, c: seq<T>)
    ensures a + (b + c) == a + b + c
  {
  }

  /** `trimStart` drops exactly the white prefix: what is left is a suffix not starting with white space. */
  lemma TrimStartShape(s: string)
    ensures var r := TrimStart(s);
      && r == s[|s| - |r|..] && (r == [] || !IsWhite(r[0])) && AllWhite(s[..|s| - |r|])
  {
    if |s| > 0 && IsWhite(s[0]) {
      TrimStartShape(s[1..]);
      var r := TrimStart(s[1..]);
      assert s[..|s| - |r|] == [s[0]] + s[1..][..|s[1..]| - |r|];
    }
  }

  /** `trimEnd` drops exactly the white suffix: what is left is a prefix not ending with white space. */
  lemma TrimEndShape(s: string)
    ensures var r := TrimEnd(s);
      && r == s[..|r|] && (r == [] || !IsWhite(r[|r| - 1])) && AllWhite(s[|r|..])
  {
    if |s| > 0 && IsWhite(s[|s| - 1]) {
      TrimEndShape(s[..|s| - 1]);
      var r := TrimEnd(s[..|s| - 1]);
      assert s[|r|..] == s[..|s| - 1][|r|..] + [s[|s| - 1]];
    }
  }

  /** What `trimEnd` leaves does not end with white space. */
  lemma TrimEndLast(s: string)
    ensures TrimEnd(s) == [] || !IsWhite(TrimEnd(s)[|TrimEnd(s)| - 1])
  {
    TrimEndShape(s);
  }

  /** `s.trim()` */
  function Trim(s: string): string {
    TrimEnd(TrimStart(s))
  }

  /** A string with no white space at either end. */
  predicate IsTrimmed(s: string) {
    s == [] || (!IsWhite(s[0]) && !IsWhite(s[|s| - 1]))
  }

  lemma TrimStartOfWhitePrefix(w: string, x: string)
    requires AllWhite(w) && (x == [] || !IsWhite(x[0]))
    ensures TrimStart(w + x) == x
  {
    if w != [] {
      assert (w + x)[1..] == w[1..] + x;
      TrimStartOfWhitePrefix(w[1..], x);
    } else {
      assert w + x == x;
    }
  }

  lemma TrimEndOfWhiteSuffix(x: string, w: string)
    requires AllWhite(w) && (x == [] || !IsWhite(x[|x| - 1]))
    ensures TrimEnd(x + w) == x
  {
    if w != [] {
      assert (x + w)[..|x + w| - 1] == x + w[..|w| - 1];
      TrimEndOfWhiteSuffix(x, w[..|w| - 1]);
    } else {
      assert x + w == x;
    }
  }

  /** Trimming removes exactly the white padding around an already trimmed text. */
  lemma {:induction false} TrimPadded(w1: string, x: string, w2: string)
    requires AllWhite(w1) && AllWhite(w2) && IsTrimmed(x) && x != []
    ensures Trim(w1 + x + w2) == x
  {
    assert w1 + x + w2 == w1 + (x + w2);
    TrimStartOfWhitePrefix(w1, x + w2);
    TrimEndOfWhiteSuffix(x, w2);
  }

  lemma TrimOfTrimmed(x: string)
    requires IsTrimmed(x)
    ensures Trim(x) == x
  {
    if x != [] {
      TrimPadded([], x, []);
      assert [] + x + [] == x;
    }
  }

  /** What `trim` leaves has no white space at either end. */
  lemma TrimIsTrimmed(s: string)
    ensures IsTrimmed(Trim(s))
  {
    var t := TrimStart(s);
    TrimStartShape(s);
    TrimEndShape(t);
    var u := TrimEnd(t);
    if u != [] {
      assert u[0] == t[0];
    }
  }

  /** The trimmed text is empty exactly when the input is all white space. */
  lemma TrimEmptyIff(s: string)
    ensures Trim(s) == [] <==> AllWhite(s)
  {
    var t := TrimStart(s);
    TrimStartShape(s);
    TrimEndShape(t);
    if t != [] {
      assert !IsWhite(t[0]);
      assert s[|s| - |t|] == t[0];
    }
  }

  predicate StartsWith(s: string, p: string) {
    |p| <= |s| && s[..|p|] == p
  }

  /** `p` occurs in `s` at index `i`. */
  predicate OccursAt(s: string, p: string, i: int) {
    0 <= i && i + |p| <= |s| && s[i..i + |p|] == p
  }

  /** `s.includes(p)` */
  predicate Contains(s: string, p: string) {
    exists i :: 0 <= i <= |s| - |p| && OccursAt(s, p, i)
  }

  /** The first occurrence of `p` in `s` at or after `i`, or -1. */
  function SearchFrom(s: string, p: string, i: nat): (r: int)
    requires i <= |s|
    ensures r == -1 || (i <= r && OccursAt(s, p, r))
    ensures forall j :: i <= j && (r == -1 || j < r) ==> !OccursAt(s, p, j)
    decreases |s| - i
  {
    if OccursAt(s, p, i) then i else if i == |s| then -1 else SearchFrom(s, p, i + 1)
  }

  /** `s.indexOf(p, from)`: `from` is clamped to `[0, |s|]` first. */
  function IndexOf(s: string, p: string, from: int): (r: int)
    ensures r == -1 || (OccursAt(s, p, r) && (from <= r || from > |s|))
    ensures forall j :: from <= j && (r == -1 || j < r) ==> !OccursAt(s, p, j)
  {
    var start := if from < 0 then 0 else if from > |s| then |s| else from;
    SearchFrom(s, p, start)
  }

  lemma IndexOfContains(s: string, p: string)
    ensures IndexOf(s, p, 0) != -1 <==> Contains(s, p)
  {
  }

  /** `s.split(c)` for a one-character separator. */
  function Split(s: string, c: char): (parts: seq<string>)
    ensures |parts| >= 1
    ensures forall k :: 0 <= k < |parts| ==> c !in parts[k]
    ensures Join(parts, [c]) == s
  {
    if s == [] then [""]
    else
      var rest := Split(s[1..], c);
      if s[0] == c then [""] + rest
      else
        var parts := [[s[0]] + rest[0]] + rest[1..];
        assert parts[1..] == rest[1..];
        assert Join(parts, [c]) == [s[0]] + Join(rest, [c]);
        parts
  }

  /** `parts.join(sep)` */
  function Join(parts: seq<string>, sep: string): string {
    if |parts| == 0 then ""
    else if |parts| == 1 then parts[0]
    else parts[0] + sep + Join(parts[1..], sep)
  }

  /** The pieces written one after the other (`+=` in a loop). */
  function Concat(blocks: seq<string>): string {
    if blocks == [] then "" else Concat(blocks[..|blocks| - 1]) + blocks[|blocks| - 1]
  }

  /** Piece `i` stands in the concatenation right after the pieces before it. */
  lemma {:induction false} ConcatOccurs(blocks: seq<string>, i: nat)
    requires i < |blocks|
    ensures OccursAt(Concat(blocks), blocks[i], |Concat(blocks[..i])|)
    decreases |blocks|
  {
    var init := blocks[..|blocks| - 1];
    if i == |blocks| - 1 {
      assert blocks[..i] == init;
    } else {
      ConcatOccurs(init, i);
      assert init[..i] == blocks[..i] && init[i] == blocks[i];
      var p := |Concat(blocks[..i])|;
      assert Concat(blocks)[p..p + |blocks[i]|] == Concat(init)[p..p + |blocks[i]|];
    }
  }

  lemma SplitNoSeparator(s: string, c: char)
    requires c !in s
    ensures Split(s, c) == [s]
  {
    if s != [] {
      SplitNoSeparator(s[1..], c);
    }
  }

  lemma {:induction false} SplitFirstSeparator(x: string, c: char, y: string)
    requires c !in x
    ensures Split(x + [c] + y, c) == [x] + Split(y, c)
  {
    var s := x + [c] + y;
    if x == [] {
      assert s == [c] + y;
      assert s[1..] == y;
    } else {
      assert s[0] == x[0] && x[0] != c;
      assert s[1..] == x[1..] + [c] + y;
      var rest := Split(s[1..], c);
      calc {
        Split(s, c);
        [[x[0]] + rest[0]] + rest[1..];
      == { SplitFirstSeparator(x[1..], c, y); }
        [[x[0]] + x[1..]] + Split(y, c);
      == { assert [x[0]] + x[1..] == x; }
        [x] + Split(y, c);
      }
    }
  }

  /** Splitting undoes joining when no piece contains the separator. */
  lemma {:induction false} SplitJoin(parts: seq<string>, c: char)
    requires |parts| >= 1
    requires forall k :: 0 <= k < |parts| ==> c !in parts[k]
    ensures Split(Join(parts, [c]), c) == parts
  {
    if |parts| == 1 {
      SplitNoSeparator(parts[0], c);
    } else {
      SplitJoin(parts[1..], c);
      assert Join(parts, [c]) == parts[0] + [c] + Join(parts[1..], [c]);
      SplitFirstSeparator(parts[0], c, Join(parts[1..], [c]));
      assert [parts[0]] + parts[1..] == parts;
    }
  }

  /** A character missing from the text is missing from every piece of its split. */
  lemma {:induction false} SplitKeepsAbsent(s: string, c: char, d: char)
    requires c !in s
    ensures forall k :: 0 <= k < |Split(s, d)| ==> c !in Split(s, d)[k]
    decreases |s|
  {
    if s != [] {
      SplitKeepsAbsent(s[1..], c, d);
    }
  }

  /** Drops one trailing carriage return. */
  function DropCR(s: string): string {
    if |s| > 0 && s[|s| - 1] == '\r' then s[..|s| - 1] else s
  }

  /** `s.split(/\r?\n/)`: split on line feeds; a carriage return right before a line feed goes with it. */
  function SplitLines(s: string): (lines: seq<string>)
    ensures |lines| >= 1
  {
    var parts := Split(s, '\n');
    seq(|parts|, k requires 0 <= k < |parts| => if k < |parts| - 1 then DropCR(parts[k]) else parts[k])
  }

  /** Lines joined with "\n" split back into the same lines. */
  lemma SplitLinesJoin(lines: seq<string>)
    requires |lines| >= 1
    requires forall k :: 0 <= k < |lines| ==> '\n' !in lines[k]
    requires forall k :: 0 <= k < |lines| - 1 ==> DropCR(lines[k]) == lines[k]
    ensures SplitLines(Join(lines, "\n")) == lines
  {
    SplitJoin(lines, '\n');
  }

  /** Leftmost, non-overlapping replacement of every occurrence of `p`: `s.replace(/p/g, v)` for a literal `p`. */
  function ReplaceAll(s: string, p: string, v: string): string
    requires |p| > 0
  {
    if |s| < |p| then s
    else if s[..|p|] == p then v + ReplaceAll(s[|p|..], p, v)
    else [s[0]] + ReplaceAll(s[1..], p, v)
  }

  /** A text without the pattern is left alone. */
  lemma {:induction false} ReplaceAllAbsent(s: string, p: string, v: string)
    requires |p| > 0 && !Contains(s, p)
    ensures ReplaceAll(s, p, v) == s
  {
    if |s| >= |p| {
      assert !OccursAt(s, p, 0);
      if !Contains(s[1..], p) {
        ReplaceAllAbsent(s[1..], p, v);
      } else {
        var i :| 0 <= i <= |s[1..]| - |p| && OccursAt(s[1..], p, i);
        assert s[1..][i..i + |p|] == s[i + 1..i + 1 + |p|];
        assert OccursAt(s, p, i + 1);
      }
    }
  }

  /** The first occurrence, when nothing before it can start one, is replaced and the rest is processed on. */
  lemma {:induction false} ReplaceAllFirst(a: string, p: string, b: string, v: string)
    requires |p| > 0 && p[0] !in a
    ensures ReplaceAll(a + p + b, p, v) == a + v + ReplaceAll(b, p, v)
  {
    if a == [] {
      assert a + p + b == p + b;
      ReplaceAllAtFront(p, b, v);
    } else {
      var s := a + p + b;
      assert s[1..] == a[1..] + p + b;
      ReplaceAllSkip(s, p, v);
      ReplaceAllFirst(a[1..], p, b, v);
      assert [a[0]] + (a[1..] + v + ReplaceAll(b, p, v)) == a + v + ReplaceAll(b, p, v);
    }
  }

  /** `replace(/\r\n/g, '\n')` works piecewise across a point that does not follow a carriage return. */
  lemma {:induction false} ReplaceCrlfConcat(a: string, b: string)
    requires a == [] || a[|a| - 1] != '\r'
    ensures ReplaceAll(a + b, "\r\n", "\n") == ReplaceAll(a, "\r\n", "\n") + ReplaceAll(b, "\r\n", "\n")
    decreases |a|, 1
  {
    if a == [] {
      assert a + b == b;
    } else if |a| >= 2 && a[..2] == "\r\n" {
      assert a == "\r\n" + a[2..];
      CrlfConcatAtFront(a[2..], b);
    } else {
      CrlfConcatKept(a, b);
    }
  }

  lemma {:induction false} CrlfConcatAtFront(t: string, b: string)
    requires t == [] || t[|t| - 1] != '\r'
    ensures ReplaceAll("\r\n" + t + b, "\r\n", "\n") == ReplaceAll("\r\n" + t, "\r\n", "\n") + ReplaceAll(b, "\r\n", "\n")
    decreases |t| + 2, 0
  {
    calc {
      ReplaceAll("\r\n" + t + b, "\r\n", "\n");
    == { assert "\r\n" + t + b == "\r\n" + (t + b); }
      ReplaceAll("\r\n" + (t + b), "\r\n", "\n");
    == { ReplaceAllAtFront("\r\n", t + b, "\n"); }
      "\n" + ReplaceAll(t + b, "\r\n", "\n");
    == { ReplaceCrlfConcat(t, b); }
      "\n" + (ReplaceAll(t, "\r\n", "\n") + ReplaceAll(b, "\r\n", "\n"));
    == { ReplaceAllAtFront("\r\n", t, "\n"); }
      ReplaceAll("\r\n" + t, "\r\n", "\n") + ReplaceAll(b, "\r\n", "\n");
    }
  }

  lemma {:induction false} CrlfConcatKept(a: string, b: string)
    requires a != [] && !(|a| >= 2 && a[..2] == "\r\n") && a[|a| - 1] != '\r'
    ensures ReplaceAll(a + b, "\r\n", "\n") == ReplaceAll(a, "\r\n", "\n") + ReplaceAll(b, "\r\n", "\n")
    decreases |a|, 0
  {
    var t := a[1..];
    assert a + b == [a[0]] + (t + b);
    assert |a + b| >= 2 ==> (a + b)[..2] != "\r\n" by {
      if |a| >= 2 {
        assert (a + b)[..2] == a[..2];
      } else if |a + b| >= 2 {
        assert (a + b)[..2][0] == a[0] != '\r';
      }
    }
    CrlfKept(a + b);
    CrlfKept(a);
    assert (a + b)[1..] == t + b;
    ReplaceCrlfConcat(t, b);
  }

  /** A text that does not start with CRLF keeps its first character. */
  lemma CrlfKept(s: string)
    requires s != [] && !(|s| >= 2 && s[..2] == "\r\n")
    ensures ReplaceAll(s, "\r\n", "\n") == [s[0]] + ReplaceAll(s[1..], "\r\n", "\n")
  {
    if |s| < 2 {
      assert s[1..] == [] && s == [s[0]];
    }
  }

  lemma ReplaceAllAtFront(p: string, b: string, v: string)
    requires |p| > 0
    ensures ReplaceAll(p + b, p, v) == v + ReplaceAll(b, p, v)
  {
    assert (p + b)[..|p|] == p && (p + b)[|p|..] == b;
  }

  /** A first character that cannot start the pattern is kept. */
  lemma ReplaceAllSkip(s: string, p: string, v: string)
    requires |p| > 0 && |s| >= |p| && s[0] != p[0]
    ensures ReplaceAll(s, p, v) == [s[0]] + ReplaceAll(s[1..], p, v)
  {
    assert s[..|p|][0] == s[0];
  }

  predicate IsDigit(c: char) {
    '0' <= c <= '9'
  }

  predicate AllDigits(s: string) {
    forall i :: 0 <= i < |s| ==> IsDigit(s[i])
  }

  function DigitValue(c: char): nat
    requires IsDigit(c)
  {
    (c as int) - ('0' as int)
  }

  function DigitChar(d: nat): (c: char)
    requires d < 10
    ensures IsDigit(c) && DigitValue(c) == d
  {
    (('0' as int) + d) as char
  }

  /** The decimal value of a digit string. */
  function DigitsValue(s: string): nat
    requires AllDigits(s)
  {
    if s == [] then 0 else DigitsValue(s[..|s| - 1]) * 10 + DigitValue(s[|s| - 1])
  }

  /** The longest run of digits at the start of `s`. */
  function LeadingDigits(s: string): (r: string)
    ensures AllDigits(r) && StartsWith(s, r)
    ensures |r| == |s| || !IsDigit(s[|r|])
  {
    if |s| > 0 && IsDigit(s[0]) then
      var rest := LeadingDigits(s[1..]);
      assert s[..1 + |rest|] == [s[0]] + rest;
      [s[0]] + rest
    else []
  }

  lemma LeadingDigitsAll(s: string)
    requires AllDigits(s)
    ensures LeadingDigits(s) == s
  {
    if s != [] {
      LeadingDigitsAll(s[1..]);
    }
  }

  /**
   * `parseInt(s, 10)`: skip leading white space, take an optional sign and the longest
   * digit run; `None` (JavaScript's NaN) when there is no digit.
   */
  function ParseInt(s: string): Option<int> {
    var t := TrimStart(s);
    var negative := |t| > 0 && t[0] == '-';
    var unsigned := if |t| > 0 && (t[0] == '-' || t[0] == '+') then t[1..] else t;
    var ds := LeadingDigits(unsigned);
    if ds == [] then None
    else Some(if negative then -(DigitsValue(ds) as int) else DigitsValue(ds))
  }

  /** `parseInt(s, 10) || 0`: NaN and 0 both become 0. */
  function ParseIntOrZero(s: string): int {
    ParseInt(s).GetOr(0)
  }

  /** A string of digits parses to its decimal value. */
  lemma ParseIntDigits(s: string)
    requires s != [] && AllDigits(s)
    ensures ParseInt(s) == Some(DigitsValue(s) as int)
  {
    assert !IsWhite(s[0]);
    LeadingDigitsAll(s);
  }

  /** `String(n)` for a natural number. */
  function NatToString(n: nat): (r: string)
    ensures r != [] && AllDigits(r) && DigitsValue(r) == n
    ensures n >= 10 ==> r[0] != '0'
  {
    if n < 10 then [DigitChar(n)]
    else
      var r := NatToString(n / 10) + [DigitChar(n % 10)];
      assert r[..|r| - 1] == NatToString(n / 10);
      r
  }

  lemma NatToStringLength(n: nat)
    ensures n < 10 ==> |NatToString(n)| == 1
    ensures 10 <= n < 100 ==> |NatToString(n)| == 2
    ensures 1000 <= n < 10000 ==> |NatToString(n)| == 4
  {
    if n >= 10 {
      NatToStringLength(n / 10);
    }
  }

  /** `String(i)` for an integer. */
  function IntToString(i: int): string {
    if i < 0 then "-" + NatToString(-i) else NatToString(i)
  }

  /** Printing then parsing a natural number gives it back. */
  lemma ParseIntNatToString(n: nat)
    ensures ParseInt(NatToString(n)) == Some(n)
  {
    ParseIntDigits(NatToString(n));
  }

  /** `s.padStart(2, '0')` */
  function PadStart2(s: string): (r: string)
    ensures |r| == if |s| >= 2 then |s| else 2
    ensures r[|r| - |s|..] == s && forall i :: 0 <= i < |r| - |s| ==> r[i] == '0'
  {
    if |s| >= 2 then s else if |s| == 1 then "0" + s else "00"
  }

  /** A one- or two-digit string, padded, still parses to the same number. */
  lemma DigitsValuePadded(s: string)
    requires s != [] && AllDigits(s)
    ensures AllDigits(PadStart2(s)) && DigitsValue(PadStart2(s)) == DigitsValue(s)
  {
    if |s| == 1 {
      var r := PadStart2(s);
      assert r[..1] == "0";
      assert r[..0] == [];
    }
  }

  /** `s.toLowerCase()` on the ASCII letters; other characters are kept. */
  function ToLower(s: string): (r: string)
    ensures |r| == |s|
  {
    if s == [] then []
    else
      var c := s[0];
      [if 'A' <= c <= 'Z' then (c as int + 32) as char else c] + ToLower(s[1..])
  }

  /** `parts.map((part) => part.trim()).filter(Boolean)` */
  function TrimmedNonEmpty(parts: seq<string>): (r: seq<string>)
    ensures |r| <= |parts|
    ensures forall k :: 0 <= k < |r| ==> r[k] != []
  {
    if parts == [] then []
    else
      var t := Trim(parts[0]);
      if t == [] then TrimmedNonEmpty(parts[1..]) else [t] + TrimmedNonEmpty(parts[1..])
  }

  lemma TrimKeepsAbsent(s: string, c: char)
    requires c !in s
    ensures c !in Trim(s)
  {
    var t := TrimStart(s);
    TrimStartShape(s);
    var u := TrimEnd(t);
    TrimEndShape(t);
  }

  lemma {:induction false} TrimmedNonEmptyAbsent(parts: seq<string>, c: char)
    requires forall k :: 0 <= k < |parts| ==> c !in parts[k]
    ensures forall k :: 0 <= k < |TrimmedNonEmpty(parts)| ==> c !in TrimmedNonEmpty(parts)[k]
    decreases |parts|
  {
    if parts != [] {
      TrimmedNonEmptyAbsent(parts[1..], c);
      TrimKeepsAbsent(parts[0], c);
    }
  }
}
