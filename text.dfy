/** String primitives of the two runtimes the record manager runs on: JavaScript's
    `toLowerCase`, `includes`, `trim` and string `<`, and Java's `indexOf`, `split`,
    `trim`, `replace`, `Integer.parseInt` and `Integer.toString`, together with the
    32-bit `int` range they work in. */
module Text {
  import opened Wrappers

  const Int32Min: int := -0x8000_0000
  const Int32Max: int := 0x7fff_ffff

  predicate InInt32(n: int) {
    Int32Min <= n <= Int32Max
  }

  /** Two's-complement wrap-around of Java `int` arithmetic. */
  function Wrap32(n: int): (r: int)
    ensures InInt32(r)
    ensures InInt32(n) ==> r == n
  {
    (n - Int32Min) % 0x1_0000_0000 + Int32Min
  }

  // ---------------------------------------------------------------------------
  // Characters and case

  predicate IsDigit(c: char) {
    '0' <= c <= '9'
  }

  predicate AllDigits(s: string) {
    forall i :: 0 <= i < |s| ==> IsDigit(s[i])
  }

  function LowerChar(c: char): char {
    if 'A' <= c <= 'Z' then (c as int - 'A' as int + 'a' as int) as char else c
  }

  /** `toLowerCase()` on the ASCII letters. */
  function ToLower(s: string): (r: string)
    ensures |r| == |s|
    ensures forall i :: 0 <= i < |s| ==> r[i] == LowerChar(s[i])
  {
    if s == [] then [] else [LowerChar(s[0])] + ToLower(s[1..])
  }

  // ---------------------------------------------------------------------------
  // Searching

  /** `pat` occurs in `s` starting at `j`. */
  predicate OccursAt(s: string, pat: string, j: int) {
    0 <= j <= |s| && pat <= s[j..]
  }

  /** `s.includes(t)` in JavaScript: `t` occurs somewhere in `s`. */
  predicate Contains(s: string, t: string) {
    exists i | 0 <= i <= |s| :: OccursAt(s, t, i)
  }

  /** `pat` first occurs in `s` at `p`. */
  predicate FirstAt(s: string, pat: string, p: nat) {
    OccursAt(s, pat, p) && forall j :: 0 <= j < p ==> !OccursAt(s, pat, j)
  }

  /** Java's `s.indexOf(pat, from)`: the first position at or after `from` where
      `pat` starts, or -1. */
  function IndexOf(s: string, pat: string, from: nat): (r: int)
    requires from <= |s|
    ensures r == -1 || from <= r <= |s| - |pat|
    ensures r != -1 ==> OccursAt(s, pat, r)
    decreases |s| - from
  {
    if pat <= s[from..] then from
    else if from == |s| then -1
    else IndexOf(s, pat, from + 1)
  }

  /** Nothing before the position found is an occurrence, and -1 means there is
      none from `from` on. */
  lemma {:induction false} IndexOfFirst(s: string, pat: string, from: nat)
    requires from <= |s|
    ensures IndexOf(s, pat, from) != -1 ==> forall j :: from <= j < IndexOf(s, pat, from) ==> !OccursAt(s, pat, j)
    ensures IndexOf(s, pat, from) == -1 ==> forall j :: from <= j <= |s| ==> !OccursAt(s, pat, j)
    decreases |s| - from
  {
    if !(pat <= s[from..]) && from < |s| {
      IndexOfFirst(s, pat, from + 1);
    }
  }

  /** The first occurrence is what `indexOf` finds from the start. */
  lemma {:induction false} IndexOfFirstAt(s: string, pat: string, p: nat)
    requires FirstAt(s, pat, p)
    ensures IndexOf(s, pat, 0) == p
  {
    IndexOfFirst(s, pat, 0);
  }

  /** Without an occurrence `indexOf` gives -1. */
  lemma {:induction false} IndexOfAbsent(s: string, pat: string)
    requires !Contains(s, pat)
    ensures IndexOf(s, pat, 0) == -1
  {
  }

  /** Text without `c`, then `c`: the first `c` from `from` closes that text. */
  lemma {:induction false} ClosedBy(s: string, from: nat, t: string, c: char, rest: string)
    requires from <= |s| && s[from..] == t + [c] + rest && c !in t
    ensures from + |t| < |s| && s[from..from + |t|] == t
    ensures IndexOf(s, [c], from) == from + |t|
  {
    var end := from + |t|;
    assert end < |s| && s[from..end] == t && s[end] == c by {
      assert s[from..] == t + [c] + rest;
      assert (t + [c] + rest)[|t|] == c;
    }
    assert [c] <= s[end..];
    FirstByMarker(s, [c], from, end, 0);
  }

  /** `pat` occurs at `p`, and its `k`-th character occurs nowhere in `s` from
      `from` up to `p + k`: then `p` is the first occurrence from `from` on. */
  lemma {:induction false} FirstByMarker(s: string, pat: string, from: nat, p: nat, k: nat)
    requires from <= p <= |s| && pat <= s[p..]
    requires k < |pat| && pat[k] !in s[from..p + k]
    ensures IndexOf(s, pat, from) == p
  {
    IndexOfFirst(s, pat, from);
    assert OccursAt(s, pat, p);
    assert s[p + k] == pat[k];
    assert forall j :: from <= j < p && OccursAt(s, pat, j) ==> s[from..p + k][j + k - from] == pat[k];
  }

  // ---------------------------------------------------------------------------
  // Trimming

  /** The characters JavaScript's `String.prototype.trim` removes: white space and
      line terminators. */
  predicate IsJsSpace(c: char) {
    c == '\t' || c == '\n' || c == '\U{B}' || c == '\U{C}' || c == '\r' || c == ' '
    || c == '\U{A0}' || c == '\U{1680}' || ('\U{2000}' <= c <= '\U{200A}')
    || c == '\U{2028}' || c == '\U{2029}' || c == '\U{202F}' || c == '\U{205F}'
    || c == '\U{3000}' || c == '\U{FEFF}'
  }

  /** The characters Java's `String.trim` removes: every code point up to U+0020. */
  predicate IsJavaSpace(c: char) {
    c <= ' '
  }

  /** Whose `trim` is meant. */
  datatype Runtime = JavaScript | Java

  predicate IsSpace(rt: Runtime, c: char) {
    if rt == JavaScript then IsJsSpace(c) else IsJavaSpace(c)
  }

  function TrimStart(s: string, rt: Runtime): (r: string)
    ensures |r| <= |s|
    ensures r == [] || !IsSpace(rt, r[0])
  {
    if s != [] && IsSpace(rt, s[0]) then TrimStart(s[1..], rt) else s
  }

  function TrimEnd(s: string, rt: Runtime): (r: string)
    ensures |r| <= |s|
    ensures r == [] || (!IsSpace(rt, r[|r| - 1]) && r[0] == s[0])
  {
    if s != [] && IsSpace(rt, s[|s| - 1]) then TrimEnd(s[..|s| - 1], rt) else s
  }

  /** A string with no removable character at either end. */
  predicate Trimmed(s: string, rt: Runtime) {
    s == [] || (!IsSpace(rt, s[0]) && !IsSpace(rt, s[|s| - 1]))
  }

  /** `s.trim()`: removable characters stripped from both ends. */
  function Trim(s: string, rt: Runtime): (r: string)
    ensures Trimmed(r, rt)
    ensures Trimmed(s, rt) ==> r == s
  {
    TrimEnd(TrimStart(s, rt), rt)
  }

  lemma {:induction false} TrimStartDropsSpace(s: string, rt: Runtime)
    ensures TrimStart(s, rt) == s[|s| - |TrimStart(s, rt)|..]
    ensures forall i :: 0 <= i < |s| - |TrimStart(s, rt)| ==> IsSpace(rt, s[i])
  {
    if s != [] && IsSpace(rt, s[0]) {
      TrimStartDropsSpace(s[1..], rt);
    }
  }

  lemma {:induction false} TrimEndDropsSpace(s: string, rt: Runtime)
    ensures TrimEnd(s, rt) == s[..|TrimEnd(s, rt)|]
    ensures forall i :: |TrimEnd(s, rt)| <= i < |s| ==> IsSpace(rt, s[i])
  {
    if s != [] && IsSpace(rt, s[|s| - 1]) {
      TrimEndDropsSpace(s[..|s| - 1], rt);
    }
  }

  /** Trimming leaves nothing exactly when every character is removable. */
  lemma {:induction false} TrimEmpty(s: string, rt: Runtime)
    ensures Trim(s, rt) == [] <==> forall i :: 0 <= i < |s| ==> IsSpace(rt, s[i])
  {
    var t := TrimStart(s, rt);
    TrimStartDropsSpace(s, rt);
    TrimEndDropsSpace(t, rt);
  }

  function JsTrim(s: string): string {
    Trim(s, JavaScript)
  }

  function JavaTrim(s: string): string {
    Trim(s, Java)
  }

  // ---------------------------------------------------------------------------
  // Splitting and joining

  /** Every piece between occurrences of `sep`, empty pieces included. */
  function SplitAll(s: string, sep: char): (parts: seq<string>)
    ensures 1 <= |parts| <= |s| + 1
    decreases |s|
  {
    if s == [] then [""]
    else
      var rest := SplitAll(s[1..], sep);
      if s[0] == sep then [""] + rest else [[s[0]] + rest[0]] + rest[1..]
  }

  /** One piece exactly when the separator does not occur. */
  lemma {:induction false} SplitAllSingle(s: string, sep: char)
    ensures |SplitAll(s, sep)| == 1 <==> sep !in s
    decreases |s|
  {
    if s != [] {
      SplitAllSingle(s[1..], sep);
      assert sep in s <==> s[0] == sep || sep in s[1..] by {
        assert s == [s[0]] + s[1..];
      }
    }
  }

  /** `String.join` with a one-character separator. */
  function Join(parts: seq<string>, sep: char): string
    requires |parts| >= 1
  {
    if |parts| == 1 then parts[0] else Join(parts[..|parts| - 1], sep) + [sep] + parts[|parts| - 1]
  }

  /** A character that is not the separator and occurs in no piece does not occur
      in the joined text. */
  lemma {:induction false} JoinHasNo(parts: seq<string>, sep: char, c: char)
    requires |parts| >= 1 && c != sep
    requires forall i :: 0 <= i < |parts| ==> c !in parts[i]
    ensures c !in Join(parts, sep)
  {
    if |parts| > 1 {
      JoinHasNo(parts[..|parts| - 1], sep, c);
    }
  }

  /** Joining two non-empty lists of pieces is joining each and putting one
      separator between them. */
  lemma {:induction false} JoinAppend(p: seq<string>, q: seq<string>, sep: char)
    requires |p| >= 1 && |q| >= 1
    ensures Join(p + q, sep) == Join(p, sep) + [sep] + Join(q, sep)
    decreases |q|
  {
    var pq := p + q;
    assert pq[..|pq| - 1] == p + q[..|q| - 1];
    if |q| > 1 {
      JoinAppend(p, q[..|q| - 1], sep);
    } else {
      assert pq[..|pq| - 1] == p;
    }
  }

  function DropTrailingEmpty(parts: seq<string>): (r: seq<string>)
    ensures |r| <= |parts|
    ensures r == [] || r[|r| - 1] != ""
  {
    if parts != [] && parts[|parts| - 1] == "" then DropTrailingEmpty(parts[..|parts| - 1]) else parts
  }

  /** Only empty pieces are dropped, and only from the end. */
  lemma {:induction false} DropTrailingEmptyPrefix(parts: seq<string>)
    ensures DropTrailingEmpty(parts) <= parts
    ensures forall i :: |DropTrailingEmpty(parts)| <= i < |parts| ==> parts[i] == ""
  {
    if parts != [] && parts[|parts| - 1] == "" {
      DropTrailingEmptyPrefix(parts[..|parts| - 1]);
    }
  }

  /** Java's `s.split(regex)` for a regex that matches one literal character:
      the pieces between separators, with trailing empty pieces discarded; a string
      in which the separator does not occur comes back whole, even when empty. */
  function JavaSplit(s: string, sep: char): seq<string> {
    var all := SplitAll(s, sep);
    if |all| == 1 then all else DropTrailingEmpty(all)
  }

  lemma {:induction false} SplitWithoutSeparator(s: string, sep: char)
    requires sep !in s
    ensures SplitAll(s, sep) == [s]
  {
    if s != [] {
      SplitWithoutSeparator(s[1..], sep);
      assert [s[0]] + s[1..] == s;
    }
  }

  lemma {:induction false} SplitAfterPiece(a: string, b: string, sep: char)
    requires sep !in a
    ensures SplitAll(a + [sep] + b, sep) == [a] + SplitAll(b, sep)
    decreases |a|
  {
    if a == [] {
      assert a + [sep] + b == [sep] + b;
      assert ([sep] + b)[1..] == b;
    } else {
      assert (a + [sep] + b)[1..] == a[1..] + [sep] + b;
      SplitAfterPiece(a[1..], b, sep);
      assert [a[0]] + a[1..] == a;
    }
  }

  lemma {:induction false} SplitBeforePiece(a: string, b: string, sep: char)
    requires sep !in b
    ensures SplitAll(a + [sep] + b, sep) == SplitAll(a, sep) + [b]
    decreases |a|
  {
    if a == [] {
      assert a + [sep] + b == [sep] + b;
      assert ([sep] + b)[1..] == b;
      SplitWithoutSeparator(b, sep);
    } else {
      assert (a + [sep] + b)[0] == a[0];
      assert (a + [sep] + b)[1..] == a[1..] + [sep] + b;
      SplitBeforePiece(a[1..], b, sep);
    }
  }

  /** Splitting undoes joining when no piece contains the separator. */
  lemma {:induction false} SplitJoin(parts: seq<string>, sep: char)
    requires |parts| >= 1
    requires forall i :: 0 <= i < |parts| ==> sep !in parts[i]
    ensures SplitAll(Join(parts, sep), sep) == parts
  {
    if |parts| == 1 {
      SplitWithoutSeparator(parts[0], sep);
    } else {
      var p := parts[..|parts| - 1];
      SplitJoin(p, sep);
      SplitBeforePiece(Join(p, sep), parts[|parts| - 1], sep);
      assert p + [parts[|parts| - 1]] == parts;
    }
  }

  /** Java's `split` keeps every piece when the last one is not empty. */
  lemma {:induction false} JavaSplitKeepsAll(s: string, sep: char)
    requires SplitAll(s, sep)[|SplitAll(s, sep)| - 1] != ""
    ensures JavaSplit(s, sep) == SplitAll(s, sep)
  {
  }

  // ---------------------------------------------------------------------------
  // Replacing

  /** `s.replace(c, with)` in Java: every occurrence of `c` replaced by `with`. */
  function ReplaceChar(s: string, c: char, with: string): (r: string)
    ensures |with| >= 1 ==> |r| >= |s|
    ensures |with| <= 1 ==> |r| <= |s|
  {
    if s == [] then [] else (if s[0] == c then with else [s[0]]) + ReplaceChar(s[1..], c, with)
  }

  /** Replacing `c` by text without `c` leaves no `c`. */
  lemma {:induction false} ReplaceCharRemoves(s: string, c: char, with: string)
    requires c !in with
    ensures c !in ReplaceChar(s, c, with)
  {
    if s != [] {
      ReplaceCharRemoves(s[1..], c, with);
    }
  }

  /** Text without `c` is left as it is. */
  lemma {:induction false} ReplaceCharAbsent(s: string, c: char, with: string)
    requires c !in s
    ensures ReplaceChar(s, c, with) == s
  {
    if s != [] {
      assert s[1..] == s[1..] && c !in s[1..] by {
        assert forall x | x in s[1..] :: x in s;
      }
      ReplaceCharAbsent(s[1..], c, with);
      assert [s[0]] + s[1..] == s;
    }
  }

  lemma {:induction false} ReplaceCharKeepsOut(s: string, c: char, with: string, d: char)
    requires d != c && d !in s && d !in with
    ensures d !in ReplaceChar(s, c, with)
  {
    if s != [] {
      ReplaceCharKeepsOut(s[1..], c, with, d);
    }
  }

  lemma {:induction false} ReplaceCharAppend(a: string, b: string, c: char, with: string)
    ensures ReplaceChar(a + b, c, with) == ReplaceChar(a, c, with) + ReplaceChar(b, c, with)
  {
    if a == [] {
      assert a + b == b;
    } else {
      assert (a + b)[0] == a[0] && (a + b)[1..] == a[1..] + b;
      ReplaceCharAppend(a[1..], b, c, with);
    }
  }

  // ---------------------------------------------------------------------------
  // Integers as text

  function DigitValue(c: char): nat
    requires IsDigit(c)
  {
    c as int - '0' as int
  }

  function DigitChar(d: nat): (c: char)
    requires d < 10
    ensures IsDigit(c) && DigitValue(c) == d
  {
    ('0' as int + d) as char
  }

  /** The value of a run of decimal digits, most significant first. */
  function DigitsValue(ds: string): nat
    requires AllDigits(ds)
  {
    if ds == [] then 0 else 10 * DigitsValue(ds[..|ds| - 1]) + DigitValue(ds[|ds| - 1])
  }

  /** One more digit multiplies the value by ten and adds the digit. */
  lemma {:induction false} DigitsValueSnoc(ds: string, d: char)
    requires AllDigits(ds) && IsDigit(d)
    ensures AllDigits(ds + [d])
    ensures DigitsValue(ds + [d]) == 10 * DigitsValue(ds) + DigitValue(d)
  {
    assert (ds + [d])[..|ds|] == ds;
  }

  /** The value of `ds` when it is a non-empty run of decimal digits. */
  function DigitsNumber(ds: string): Option<nat> {
    if ds == [] || !IsDigit(ds[|ds| - 1]) then None
    else if |ds| == 1 then Some(DigitValue(ds[0]))
    else
      match DigitsNumber(ds[..|ds| - 1])
      case None => None
      case Some(v) => Some(10 * v + DigitValue(ds[|ds| - 1]))
  }

  lemma {:induction false} DigitsNumberValue(ds: string)
    ensures DigitsNumber(ds).Some? <==> ds != [] && AllDigits(ds)
    ensures DigitsNumber(ds).Some? ==> DigitsNumber(ds).value == DigitsValue(ds)
  {
    if |ds| > 1 {
      var init := ds[..|ds| - 1];
      DigitsNumberValue(init);
      assert AllDigits(ds) ==> AllDigits(init) by {
        if AllDigits(ds) {
          forall i | 0 <= i < |init| ensures IsDigit(init[i]) {
            assert init[i] == ds[i];
          }
        }
      }
      assert AllDigits(init) && IsDigit(ds[|ds| - 1]) ==> AllDigits(ds) by {
        if AllDigits(init) && IsDigit(ds[|ds| - 1]) {
          forall i | 0 <= i < |ds| ensures IsDigit(ds[i]) {
            if i < |init| {
              assert init[i] == ds[i];
            }
          }
        }
      }
    } else if |ds| == 1 {
      assert ds[..0] == [];
    }
  }

  /** `Integer.parseInt(s)`: an optional sign followed by at least one decimal
      digit, whose value fits a 32-bit `int`; None where Java throws
      NumberFormatException. */
  function ParseInt(s: string): (r: Option<int>)
    ensures r.Some? ==> InInt32(r.value)
  {
    var signed := |s| > 0 && (s[0] == '-' || s[0] == '+');
    var digits := if signed then s[1..] else s;
    match DigitsNumber(digits)
    case None => None
    case Some(d) =>
      var v := if s[0] == '-' then -(d as int) else d as int;
      if InInt32(v) then Some(v) else None
  }

  /** Decimal digits of a natural number, without leading zeros. */
  function NatToString(n: nat): (s: string)
    ensures |s| >= 1 && AllDigits(s)
    ensures DigitsValue(s) == n
  {
    if n < 10 then [DigitChar(n)]
    else
      var s := NatToString(n / 10) + [DigitChar(n % 10)];
      assert s[..|s| - 1] == NatToString(n / 10);
      s
  }

  /** `Integer.toString(n)`, which is also what `StringBuilder.append(int)` writes. */
  function IntToString(n: int): (s: string)
    ensures |s| >= 1
    ensures n >= 0 ==> AllDigits(s)
    ensures n < 0 ==> s[0] == '-' && AllDigits(s[1..])
  {
    if n < 0 then "-" + NatToString(-n) else NatToString(n)
  }

  /** A printed integer is made of digits and at most a leading minus sign. */
  lemma {:induction false} IntToStringChars(n: int)
    ensures forall i :: 0 <= i < |IntToString(n)| ==> IsDigit(IntToString(n)[i]) || (i == 0 && IntToString(n)[i] == '-')
  {
    var s := IntToString(n);
    if n < 0 {
      forall i | 1 <= i < |s| ensures IsDigit(s[i]) {
        assert s[i] == s[1..][i - 1];
      }
    }
  }

  /** Parsing gives back every `int` that was printed. */
  lemma {:induction false} ParseIntToString(n: int)
    requires InInt32(n)
    ensures ParseInt(IntToString(n)) == Some(n)
  {
    var s := IntToString(n);
    if n < 0 {
      assert s[1..] == NatToString(-n);
      DigitsNumberValue(s[1..]);
    } else {
      assert !IsDigit('-') && !IsDigit('+');
      DigitsNumberValue(s);
    }
  }

  // ---------------------------------------------------------------------------
  // Ordering of strings

  /** JavaScript's `a < b` on strings: lexicographic by character code. */
  predicate LexLess(a: string, b: string)
    decreases |a|
  {
    if a == [] then b != []
    else if b == [] then false
    else if a[0] != b[0] then a[0] < b[0]
    else LexLess(a[1..], b[1..])
  }

  lemma {:induction false} LexIrreflexive(a: string)
    ensures !LexLess(a, a)
  {
    if a != [] {
      LexIrreflexive(a[1..]);
    }
  }

  lemma {:induction false} LexTransitive(a: string, b: string, c: string)
    requires LexLess(a, b) && LexLess(b, c)
    ensures LexLess(a, c)
    decreases |a|
  {
    if a != [] && b != [] && c != [] && a[0] == b[0] && b[0] == c[0] {
      LexTransitive(a[1..], b[1..], c[1..]);
    }
  }

  lemma {:induction false} LexTotal(a: string, b: string)
    requires a != b
    ensures LexLess(a, b) || LexLess(b, a)
    decreases |a|
  {
    if a != [] && b != [] && a[0] == b[0] {
      assert a == [a[0]] + a[1..] && b == [b[0]] + b[1..];
      LexTotal(a[1..], b[1..]);
    }
  }
}
