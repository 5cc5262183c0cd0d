/** The few JavaScript string built-ins the two webhook handlers rely on,
    written out over `seq<char>`: `startsWith`, `indexOf`, `split` on one
    character, `replace` with a literal pattern (first occurrence, or all
    occurrences for a global regex with no special characters), `trim`,
    the `\s` and `\d` character classes, `Number(...)` on a decimal string
    and the decimal rendering of an integer. */
module JsStrings {

  datatype Option<+T> = None | Some(value: T)

  /** `value || fallback` on a string: an absent or empty string gives way
      to the fallback. */
  function Or(value: string, fallback: string): (r: string)
    ensures r != "" || fallback == ""
  {
    if value != "" then value else fallback
  }

  // ---------------------------------------------------------------------
  // Character classes
  // ---------------------------------------------------------------------

  /** The characters JavaScript's `\s` matches, which are also the ones
      `String.prototype.trim` removes. */
  predicate IsSpace(c: char) {
    c == ' ' || c == '\t' || c == '\n' || c == '\r' || c == '\U{000B}' || c == '\U{000C}'
    || c == '\U{00A0}' || c == '\U{1680}' || ('\U{2000}' <= c <= '\U{200A}')
    || c == '\U{2028}' || c == '\U{2029}' || c == '\U{202F}' || c == '\U{205F}'
    || c == '\U{3000}' || c == '\U{FEFF}'
  }

  /** The characters a regex `.` without the `s` flag refuses to match. */
  predicate IsLineTerminator(c: char) {
    c == '\n' || c == '\r' || c == '\U{2028}' || c == '\U{2029}'
  }

  /** JavaScript's `\d`. */
  predicate IsDigit(c: char) { '0' <= c <= '9' }

  predicate AllDigits(s: string) { forall i :: 0 <= i < |s| ==> IsDigit(s[i]) }

  predicate AllSpace(s: string) { forall i :: 0 <= i < |s| ==> IsSpace(s[i]) }

  predicate NoLineTerminator(s: string) { forall i :: 0 <= i < |s| ==> !IsLineTerminator(s[i]) }

  /** Concatenation regrouped. */
  lemma ConcatAssoc<T>(a: seq<T>, b: seq<T>, c: seq<T>)
    ensures a + (b + c) == (a + b) + c
  {
  }

  // ---------------------------------------------------------------------
  // startsWith / indexOf
  // ---------------------------------------------------------------------

  predicate StartsWith(s: string, prefix: string) {
    |prefix| <= |s| && s[..|prefix|] == prefix
  }

  /** A text that starts with `p` neither starts with nor is a `q` that
      differs from `p` at `i`. */
  lemma PrefixesDiffer(text: string, p: string, q: string, i: nat)
    requires StartsWith(text, p) && i < |p| && i < |q| && p[i] != q[i]
    ensures !StartsWith(text, q) && text != q
  {
    assert text[i] == p[i];
  }

  /** `p` occurs in `s` at position `i`. */
  predicate OccursAt(s: string, p: string, i: int) {
    0 <= i && i + |p| <= |s| && s[i..i + |p|] == p
  }

  /** `s.indexOf(p, from)`: the first position at or after `from` where `p`
      occurs, or -1. */
  function IndexFrom(s: string, p: string, from: nat): (r: int)
    decreases |s| - from
    ensures r == -1 || (from <= r && OccursAt(s, p, r))
    ensures r == -1 ==> forall i :: from <= i ==> !OccursAt(s, p, i)
    ensures r != -1 ==> forall i :: from <= i < r ==> !OccursAt(s, p, i)
  {
    if from + |p| > |s| then -1
    else if s[from..from + |p|] == p then from
    else IndexFrom(s, p, from + 1)
  }

  /** `s.indexOf(p)`. */
  function IndexOf(s: string, p: string): (r: int)
    ensures r == -1 || OccursAt(s, p, r)
    ensures r == -1 <==> forall i :: !OccursAt(s, p, i)
    ensures r != -1 ==> forall i :: 0 <= i < r ==> !OccursAt(s, p, i)
  {
    IndexFrom(s, p, 0)
  }

  lemma IndexOfPrefix(s: string, p: string)
    requires StartsWith(s, p)
    ensures IndexOf(s, p) == 0
  {
    assert OccursAt(s, p, 0);
  }

  /** The index of the first `c` in `s`, or -1. */
  function IndexOfChar(s: string, c: char): (r: int)
    ensures r == -1 <==> c !in s
    ensures r != -1 ==> 0 <= r < |s| && s[r] == c && c !in s[..r]
  {
    if |s| == 0 then -1
    else if s[0] == c then 0
    else
      var k := IndexOfChar(s[1..], c);
      if k == -1 then -1 else k + 1
  }

  // ---------------------------------------------------------------------
  // split on a one-character separator, and its inverse
  // ---------------------------------------------------------------------

  /** `s.split(sep)` for a one-character string `sep`. */
  function Split(s: string, sep: char): (parts: seq<string>)
    decreases |s|
    ensures |parts| >= 1
    ensures forall k :: 0 <= k < |parts| ==> sep !in parts[k]
  {
    var i := IndexOfChar(s, sep);
    if i == -1 then [s] else [s[..i]] + Split(s[i + 1..], sep)
  }

  /** `parts.join(sep)`. */
  function Join(parts: seq<string>, sep: char): string
    requires |parts| >= 1
  {
    if |parts| == 1 then parts[0] else parts[0] + [sep] + Join(parts[1..], sep)
  }

  lemma {:induction false} JoinSplit(s: string, sep: char)
    ensures Join(Split(s, sep), sep) == s
    decreases |s|
  {
    var i := IndexOfChar(s, sep);
    if i != -1 {
      var head, rest := s[..i], s[i + 1..];
      var parts := Split(rest, sep);
      JoinSplit(rest, sep);
      assert Split(s, sep) == [head] + parts;
      assert ([head] + parts)[1..] == parts;
      assert Join([head] + parts, sep) == head + [sep] + Join(parts, sep);
      assert s == head + [sep] + rest;
    }
  }

  /** Splitting a string made of one separator-free head, the separator and
      a rest gives the head followed by the parts of the rest. */
  lemma SplitCons(head: string, sep: char, rest: string)
    requires sep !in head
    ensures Split(head + [sep] + rest, sep) == [head] + Split(rest, sep)
  {
    var s := head + [sep] + rest;
    assert s[..|head|] == head;
    assert s[|head|] == sep;
    assert s[|head| + 1..] == rest;
  }

  lemma SplitNoSep(s: string, sep: char)
    requires sep !in s
    ensures Split(s, sep) == [s]
  {
  }

  // ---------------------------------------------------------------------
  // replace
  // ---------------------------------------------------------------------

  /** `s.replace(p, "")` with a string pattern: removes the first occurrence
      of `p`, if any. */
  function RemoveFirst(s: string, p: string): (r: string)
    ensures IndexOf(s, p) == -1 ==> r == s
    ensures IndexOf(s, p) != -1 ==> |r| == |s| - |p|
  {
    var i := IndexOf(s, p);
    if i == -1 then s else s[..i] + s[i + |p|..]
  }

  /** Putting `p` back where its first occurrence was gives the string
      before the removal. */
  lemma RemoveFirstSplice(s: string, p: string)
    requires IndexOf(s, p) != -1
    ensures s == RemoveFirst(s, p)[..IndexOf(s, p)] + p + RemoveFirst(s, p)[IndexOf(s, p)..]
  {
    var i, r := IndexOf(s, p), RemoveFirst(s, p);
    assert r[..i] == s[..i] && r[i..] == s[i + |p|..];
    assert s == s[..i] + s[i..i + |p|] + s[i + |p|..];
  }

  lemma RemoveFirstPrefix(s: string, p: string)
    requires StartsWith(s, p)
    ensures RemoveFirst(s, p) == s[|p|..]
  {
    IndexOfPrefix(s, p);
  }

  /** `s.replace(/p/g, r)` for a pattern `p` that is a plain, non-empty
      literal: every occurrence, scanning from the left without overlap, is
      replaced by `r` (the replacement is taken literally). */
  function ReplaceAll(s: string, p: string, r: string): (t: string)
    requires |p| > 0
    decreases |s|
  {
    if |s| < |p| then s
    else if s[..|p|] == p then r + ReplaceAll(s[|p|..], p, r)
    else [s[0]] + ReplaceAll(s[1..], p, r)
  }

  /** An occurrence that ends the untouched run `a`: the replacement scans
      past `a` unchanged and replaces the occurrence, provided none starts
      inside `a`. */
  lemma {:induction false} ReplaceAllSkip(a: string, p: string, r: string, rest: string)
    requires |p| > 0
    requires forall i :: 0 <= i < |a| ==> !OccursAt(a + p + rest, p, i)
    ensures ReplaceAll(a + p + rest, p, r) == a + r + ReplaceAll(rest, p, r)
    decreases |a|
  {
    var s := a + p + rest;
    if |a| == 0 {
      assert s == p + rest;
      ReplaceAllAt(p, r, rest);
    } else {
      ReplaceAllStep(s, p, r);
      assert s[1..] == a[1..] + p + rest;
      OccursShift(s, p, |a| - 1);
      ReplaceAllSkip(a[1..], p, r, rest);
      assert s[0] == a[0];
      assert [a[0]] + a[1..] == a;
    }
  }

  lemma ReplaceAllAt(p: string, r: string, rest: string)
    requires |p| > 0
    ensures ReplaceAll(p + rest, p, r) == r + ReplaceAll(rest, p, r)
  {
    var s := p + rest;
    assert s[..|p|] == p && s[|p|..] == rest;
  }

  lemma ReplaceAllStep(s: string, p: string, r: string)
    requires |p| > 0 && |p| <= |s| && !OccursAt(s, p, 0)
    ensures ReplaceAll(s, p, r) == [s[0]] + ReplaceAll(s[1..], p, r)
  {
  }

  /** An occurrence in `s[1..]` is one in `s`, a position further on. */
  lemma OccursShift(s: string, p: string, n: nat)
    requires |s| > 0 && n < |s|
    requires forall i :: 1 <= i <= n ==> !OccursAt(s, p, i)
    ensures forall i :: 0 <= i < n ==> !OccursAt(s[1..], p, i)
  {
    forall i | 0 <= i < n ensures !OccursAt(s[1..], p, i) {
      assert !OccursAt(s, p, i + 1);
      if i + |p| <= |s| - 1 {
        assert s[1..][i..i + |p|] == s[i + 1..i + 1 + |p|];
      }
    }
  }

  lemma {:induction false} ReplaceAllAbsent(s: string, p: string, r: string)
    requires |p| > 0
    requires forall i :: !OccursAt(s, p, i)
    ensures ReplaceAll(s, p, r) == s
    decreases |s|
  {
    if |s| >= |p| {
      assert !OccursAt(s, p, 0);
      forall i ensures !OccursAt(s[1..], p, i) {
        if OccursAt(s[1..], p, i) {
          assert s[1..][i..i + |p|] == s[i + 1..i + 1 + |p|];
          assert OccursAt(s, p, i + 1);
        }
      }
      ReplaceAllAbsent(s[1..], p, r);
    }
  }

  /** `s.replace(/c/g, r)` for a single character `c`. */
  function ReplaceChar(s: string, c: char, r: string): (t: string)
    ensures c !in s ==> t == s
    ensures forall d :: d in t ==> (d in s && d != c) || d in r
  {
    if |s| == 0 then s
    else (if s[0] == c then r else [s[0]]) + ReplaceChar(s[1..], c, r)
  }

  lemma ReplaceCharOne(x: char, c: char, r: string)
    ensures ReplaceChar([x], c, r) == if x == c then r else [x]
  {
    assert [x][1..] == [];
  }

  lemma {:induction false} ReplaceCharAppend(a: string, b: string, c: char, r: string)
    ensures ReplaceChar(a + b, c, r) == ReplaceChar(a, c, r) + ReplaceChar(b, c, r)
    decreases |a|
  {
    if |a| > 0 {
      assert (a + b)[1..] == a[1..] + b;
      ReplaceCharAppend(a[1..], b, c, r);
    } else {
      assert a + b == b;
    }
  }

  // ---------------------------------------------------------------------
  // trim
  // ---------------------------------------------------------------------

  function TrimStart(s: string): (t: string)
    ensures |t| <= |s| && t == s[|s| - |t|..]
    ensures AllSpace(s[..|s| - |t|])
    ensures |t| > 0 ==> !IsSpace(t[0])
  {
    if |s| > 0 && IsSpace(s[0]) then TrimStart(s[1..]) else s
  }

  function TrimEnd(s: string): (t: string)
    ensures |t| <= |s| && t == s[..|t|]
    ensures AllSpace(s[|t|..])
    ensures |t| > 0 ==> !IsSpace(t[|t| - 1])
  {
    if |s| > 0 && IsSpace(s[|s| - 1]) then TrimEnd(s[..|s| - 1]) else s
  }

  /** `t` is a stretch of `s` with only `\s` characters before and after it. */
  predicate SpaceAround(s: string, t: string) {
    exists a :: 0 <= a && a + |t| <= |s| && t == s[a..a + |t|] && AllSpace(s[..a]) && AllSpace(s[a + |t|..])
  }

  /** `s.trim()`: `s` is the result with only `\s` characters around it. */
  function Trim(s: string): (t: string)
    ensures |t| <= |s|
    ensures SpaceAround(s, t)
    ensures |t| > 0 ==> !IsSpace(t[0]) && !IsSpace(t[|t| - 1])
  {
    var x := TrimStart(s);
    var t := TrimEnd(x);
    TrimAround(s, x, t);
    t
  }

  /** Trimming the end of a suffix of `s` leaves a stretch of `s`. */
  lemma TrimAround(s: string, x: string, t: string)
    requires |x| <= |s| && x == s[|s| - |x|..] && AllSpace(s[..|s| - |x|])
    requires |x| > 0 ==> !IsSpace(x[0])
    requires |t| <= |x| && t == x[..|t|] && AllSpace(x[|t|..])
    requires |t| > 0 ==> !IsSpace(t[|t| - 1])
    ensures |t| <= |s|
    ensures SpaceAround(s, t)
    ensures |t| > 0 ==> !IsSpace(t[0]) && !IsSpace(t[|t| - 1])
  {
    if |t| > 0 {
      assert t[0] == x[0];
    }
    var a := |s| - |x|;
    assert s[a..a + |t|] == x[..|t|];
    assert s[a + |t|..] == x[|t|..];
    assert 0 <= a && a + |t| <= |s| && t == s[a..a + |t|] && AllSpace(s[..a]) && AllSpace(s[a + |t|..]);
  }

  lemma TrimDigits(s: string)
    requires AllDigits(s)
    ensures Trim(s) == s
  {
    assert |s| > 0 ==> !IsSpace(s[0]) && !IsSpace(s[|s| - 1]);
  }

  // ---------------------------------------------------------------------
  // Numbers
  // ---------------------------------------------------------------------

  function DigitValue(c: char): nat
    requires IsDigit(c)
  {
    (c as int - '0' as int) as nat
  }

  function DigitChar(d: nat): (c: char)
    requires d < 10
    ensures IsDigit(c) && DigitValue(c) == d
  {
    ('0' as int + d) as char
  }

  /** The value of a string of decimal digits. */
  function DigitsValue(s: string): nat
    requires AllDigits(s)
  {
    if |s| == 0 then 0 else DigitsValue(s[..|s| - 1]) * 10 + DigitValue(s[|s| - 1])
  }

  /** `Number(s)` for the strings that matter here: an optional minus sign
      followed by one or more decimal digits gives that integer; anything
      else is `NaN`, which no stored value equals (None). The empty text,
      which JavaScript reads as 0, never gets here: the `doc("")` read
      before every numeric query throws. */
  function NumberOf(s: string): (r: Option<int>)
    ensures AllDigits(s) && |s| > 0 ==> r == Some(DigitsValue(s))
    ensures r.Some? ==> |s| > 0
  {
    if |s| > 0 && AllDigits(s) then Some(DigitsValue(s))
    else if |s| > 1 && s[0] == '-' && AllDigits(s[1..]) then
      var v: int := DigitsValue(s[1..]);
      Some(-v)
    else None
  }

  /** The decimal rendering of a natural number (`String(n)` / `${n}`). */
  function NatToString(n: nat): (s: string)
    ensures |s| > 0 && AllDigits(s)
  {
    if n < 10 then [DigitChar(n)] else NatToString(n / 10) + [DigitChar(n % 10)]
  }

  /** The decimal rendering of an integer, with a leading `-` when negative. */
  function IntToString(n: int): (s: string)
    ensures |s| > 0 && '\n' !in s
  {
    var s := if n < 0 then "-" + NatToString(-n) else NatToString(n);
    assert forall i :: 0 <= i < |s| ==> s[i] == '-' || IsDigit(s[i]);
    s
  }

  lemma {:induction false} DigitsValueOfNatToString(n: nat)
    ensures DigitsValue(NatToString(n)) == n
  {
    var s := NatToString(n);
    if n >= 10 {
      DigitsValueOfNatToString(n / 10);
      assert s[..|s| - 1] == NatToString(n / 10);
    }
  }

  /** `Number(String(n)) == n`: the rendering is read back to the same
      integer. */
  lemma NumberOfIntToString(n: int)
    ensures NumberOf(IntToString(n)) == Some(n)
  {
    if n < 0 {
      DigitsValueOfNatToString(-n);
      var s := IntToString(n);
      assert s[1..] == NatToString(-n);
    } else {
      DigitsValueOfNatToString(n);
    }
  }
}
