/** The text processing of the `/mreply` admin command in the alert bot:
    the inline-button markup `[label](url)` (one link button per row) and
    `[label]{tag}` (one shared row of answer buttons), the `ans_` prefix on
    answer-button data and its removal when the button is pressed, and the
    HTML escaping of a recipient's name before it fills `{name}`.

    The two markup patterns are the regular expressions
    `/\[(.*?)\]\((.*?)\)/g` and `/\[(.*?)\]\{(.*?)\}/g` as `matchAll` runs
    them: leftmost first, both groups lazy, `.` refusing line terminators.
    They are scanned by hand here; no general regex engine is modelled. */
module Markup {
  import opened JsStrings
  import opened Telegram

  // ---------------------------------------------------------------------
  // The two markup patterns
  // ---------------------------------------------------------------------

  datatype Kind = Link | Answer

  /** The bracket that opens the second group: `(` for links, `{` for answers. */
  function Open(k: Kind): char {
    match k
    case Link => '('
    case Answer => '{'
  }

  function Close(k: Kind): char {
    match k
    case Link => ')'
    case Answer => '}'
  }

  /** One match: where it starts, the label (group 1) and the url or tag
      (group 2). */
  datatype Match = Match(start: nat, text: string, payload: string)

  /** The matched text, `match[0]`. */
  function Whole(m: Match, k: Kind): string {
    "[" + m.text + "]" + [Open(k)] + m.payload + [Close(k)]
  }

  function End(m: Match, k: Kind): nat {
    m.start + |Whole(m, k)|
  }

  /** What every match of the pattern satisfies: it is the text at its
      position, neither group crosses a line, and both groups are as short
      as the lazy `.*?` makes them (the label holds no `]` directly followed
      by the opening bracket, the url or tag holds no closing bracket). */
  predicate Matches(s: string, k: Kind, m: Match) {
    End(m, k) <= |s| && s[m.start..End(m, k)] == Whole(m, k)
    && NoLineTerminator(m.text) && NoLineTerminator(m.payload)
    && Close(k) !in m.payload
    && (forall q :: 0 <= q < |m.text| ==> !ClosesLabel(m.text, Open(k), q))
  }

  /** A `]` at `q` directly followed by `open`: where a lazy label can end. */
  predicate ClosesLabel(s: string, open: char, q: int) {
    0 <= q && q + 1 < |s| && s[q] == ']' && s[q + 1] == open
  }

  /** Matches come in order of position and do not overlap. */
  predicate Ordered(ms: seq<Match>, k: Kind) {
    forall t :: 0 < t < |ms| ==> End(ms[t - 1], k) <= ms[t].start
  }

  /** The end of the lazy label: the first `]` at or after `j` that is
      followed by `open`, provided no line terminator comes first; None
      when every such `]` lies beyond a line terminator. */
  function LabelEnd(s: string, open: char, j: nat): (r: Option<nat>)
    requires open != ']' && !IsLineTerminator(open)
    decreases |s| - j
    ensures r.Some? ==> j <= r.value && ClosesLabel(s, open, r.value)
    ensures r.Some? ==> NoLineTerminator(s[j..r.value])
    ensures r.Some? ==> forall q :: j <= q < r.value ==> !ClosesLabel(s, open, q)
    ensures r.None? ==>
      forall q :: j <= q && ClosesLabel(s, open, q) ==> !NoLineTerminator(s[j..q])
  {
    if j + 1 >= |s| then None
    else if s[j] == ']' && s[j + 1] == open then Some(j)
    else if IsLineTerminator(s[j]) then
      LineBreakAhead(s, j);
      None
    else
      var r := LabelEnd(s, open, j + 1);
      LineBreakBehind(s, j);
      r
  }

  /** The end of the lazy url or tag: the first `close` at or after `k`,
      provided no line terminator comes first; None when every `close`
      lies beyond a line terminator. */
  function PayloadEnd(s: string, close: char, k: nat): (r: Option<nat>)
    requires !IsLineTerminator(close)
    decreases |s| - k
    ensures r.Some? ==> k <= r.value < |s| && s[r.value] == close
    ensures r.Some? ==> NoLineTerminator(s[k..r.value]) && close !in s[k..r.value]
    ensures r.None? ==> forall q :: k <= q < |s| && s[q] == close ==> !NoLineTerminator(s[k..q])
  {
    if k >= |s| then None
    else if s[k] == close then Some(k)
    else if IsLineTerminator(s[k]) then
      LineBreakAhead(s, k);
      None
    else
      var r := PayloadEnd(s, close, k + 1);
      LineBreakBehind(s, k);
      r
  }

  /** A line terminator at `j` is in every stretch that starts there. */
  lemma LineBreakAhead(s: string, j: nat)
    requires j < |s| && IsLineTerminator(s[j])
    ensures forall q :: j < q <= |s| ==> !NoLineTerminator(s[j..q])
  {
    forall q | j < q <= |s| ensures !NoLineTerminator(s[j..q]) {
      assert s[j..q][0] == s[j];
    }
  }

  /** A line terminator after `j` is in the stretch that starts at `j`. */
  lemma LineBreakBehind(s: string, j: nat)
    requires j < |s|
    ensures forall q :: j < q <= |s| && !NoLineTerminator(s[j + 1..q]) ==> !NoLineTerminator(s[j..q])
  {
    forall q | j < q <= |s| && !NoLineTerminator(s[j + 1..q]) ensures !NoLineTerminator(s[j..q]) {
      var x :| 0 <= x < |s[j + 1..q]| && IsLineTerminator(s[j + 1..q][x]);
      assert s[j..q][x + 1] == s[j + 1..q][x];
    }
  }

  /** The lazy label search finds the first `]` followed by `open` when no
      line terminator comes before it. */
  lemma {:induction false} LabelEndFinds(s: string, open: char, j: nat, e: nat)
    requires open != ']' && !IsLineTerminator(open)
    requires j <= e && ClosesLabel(s, open, e)
    requires NoLineTerminator(s[j..e])
    requires forall q :: j <= q < e ==> !ClosesLabel(s, open, q)
    ensures LabelEnd(s, open, j) == Some(e)
    decreases e - j
  {
    if j < e {
      assert s[j] == s[j..e][0];
      assert s[j + 1..e] == s[j..e][1..];
      LabelEndFinds(s, open, j + 1, e);
    }
  }

  /** The lazy url or tag search finds the first closing character when no
      line terminator comes before it. */
  lemma {:induction false} PayloadEndFinds(s: string, close: char, k: nat, e: nat)
    requires !IsLineTerminator(close)
    requires k <= e < |s| && s[e] == close
    requires NoLineTerminator(s[k..e]) && close !in s[k..e]
    ensures PayloadEnd(s, close, k) == Some(e)
    decreases e - k
  {
    if k < e {
      assert s[k] == s[k..e][0];
      assert s[k + 1..e] == s[k..e][1..];
      PayloadEndFinds(s, close, k + 1, e);
    }
  }

  /** The match that starts at the `[` at position `i`, if any. When the
      first candidate label end leaves no closing bracket on its line, no
      longer label can either, so the lazy search stops there. */
  function MatchAt(s: string, k: Kind, i: nat): (r: Option<Match>)
    requires i < |s| && s[i] == '['
    ensures r.Some? ==> r.value.start == i && Matches(s, k, r.value)
  {
    match LabelEnd(s, Open(k), i + 1)
    case None => None
    case Some(j) =>
      match PayloadEnd(s, Close(k), j + 2)
      case None => None
      case Some(e) =>
        var m := Match(i, s[i + 1..j], s[j + 2..e]);
        NoCloseInside(s, Open(k), i + 1, j);
        assert End(m, k) == e + 1;
        assert s[i..e + 1] == "[" + s[i + 1..j] + "]" + [Open(k)] + s[j + 2..e] + [Close(k)];
        Some(m)
  }

  /** A stretch of `s` that spells `x + y` spells `x` and then `y`. */
  lemma ConcatAt(s: string, i: nat, x: string, y: string)
    requires i + |x| + |y| <= |s| && s[i..i + |x| + |y|] == x + y
    ensures s[i..i + |x|] == x && s[i + |x|..i + |x| + |y|] == y
  {
    assert s[i..i + |x|] == s[i..i + |x| + |y|][..|x|];
    assert s[i + |x|..i + |x| + |y|] == s[i..i + |x| + |y|][|x|..];
  }

  /** Where the brackets and the two groups of a match lie in `s`. */
  lemma MatchLayout(s: string, k: Kind, m: Match)
    requires Matches(s, k, m)
    ensures var j, e := m.start + 1 + |m.text|, m.start + 3 + |m.text| + |m.payload|;
      e < |s| && s[m.start] == '[' && s[m.start + 1..j] == m.text && s[j] == ']' && s[j + 1] == Open(k)
      && s[j + 2..e] == m.payload && s[e] == Close(k)
  {
    var i, t, p := m.start, m.text, m.payload;
    var j, e := i + 1 + |t|, i + 3 + |t| + |p|;
    assert End(m, k) == e + 1;
    ConcatAt(s, i, "[" + t + "]" + [Open(k)] + p, [Close(k)]);
    ConcatAt(s, i, "[" + t + "]" + [Open(k)], p);
    ConcatAt(s, i, "[" + t + "]", [Open(k)]);
    ConcatAt(s, i, "[" + t, "]");
    ConcatAt(s, i, "[", t);
    assert s[i] == s[i..i + 1][0];
    assert s[j] == s[j..j + 1][0];
    assert s[j + 1] == s[j + 1..j + 2][0];
    assert s[e] == s[e..e + 1][0];
  }

  /** No `]` directly followed by the opening bracket ends a label before
      the match's own. */
  lemma LabelIsLazy(s: string, k: Kind, m: Match)
    requires Matches(s, k, m)
    ensures forall q :: m.start + 1 <= q < m.start + 1 + |m.text| ==> !ClosesLabel(s, Open(k), q)
  {
    MatchLayout(s, k, m);
    var i, j := m.start, m.start + 1 + |m.text|;
    forall q | i + 1 <= q < j ensures !ClosesLabel(s, Open(k), q) {
      if q + 1 < j {
        assert s[q] == s[i + 1..j][q - i - 1] && s[q + 1] == s[i + 1..j][q - i];
        assert !ClosesLabel(m.text, Open(k), q - i - 1);
      }
    }
  }

  /** The lazy label search stops where the match's label ends. */
  lemma LabelStops(s: string, k: Kind, m: Match)
    requires Matches(s, k, m)
    ensures LabelEnd(s, Open(k), m.start + 1) == Some(m.start + 1 + |m.text|)
  {
    MatchLayout(s, k, m);
    LabelIsLazy(s, k, m);
    LabelEndFinds(s, Open(k), m.start + 1, m.start + 1 + |m.text|);
  }

  /** The lazy url or tag search stops where the match's url or tag ends. */
  lemma PayloadStops(s: string, k: Kind, m: Match)
    requires Matches(s, k, m)
    ensures var j := m.start + 3 + |m.text|; PayloadEnd(s, Close(k), j) == Some(j + |m.payload|)
  {
    MatchLayout(s, k, m);
    var j := m.start + 3 + |m.text|;
    PayloadEndFinds(s, Close(k), j, j + |m.payload|);
  }

  /** A stretch free of label ends in `s` has none of its own. */
  lemma NoCloseInside(s: string, open: char, a: nat, b: nat)
    requires a <= b <= |s|
    requires forall q :: a <= q < b ==> !ClosesLabel(s, open, q)
    ensures forall q :: 0 <= q < b - a ==> !ClosesLabel(s[a..b], open, q)
  {
    forall q | 0 <= q < b - a ensures !ClosesLabel(s[a..b], open, q) {
      assert !ClosesLabel(s, open, a + q);
    }
  }

  /** Every match of the pattern is the one the scanner finds at its `[`:
      the lazy groups leave no choice. */
  lemma MatchAtComplete(s: string, k: Kind, m: Match)
    requires Matches(s, k, m)
    ensures m.start < |s| && s[m.start] == '['
    ensures MatchAt(s, k, m.start) == Some(m)
  {
    MatchLayout(s, k, m);
    var i, j, e := m.start, m.start + 1 + |m.text|, m.start + 3 + |m.text| + |m.payload|;
    LabelStops(s, k, m);
    PayloadStops(s, k, m);
    MatchAtEnds(s, k, i, j, e);
  }

  /** Where both lazy searches succeed, the scanner reports the stretches
      between the brackets. */
  lemma MatchAtEnds(s: string, k: Kind, i: nat, j: nat, e: nat)
    requires i < |s| && s[i] == '['
    requires LabelEnd(s, Open(k), i + 1) == Some(j)
    requires PayloadEnd(s, Close(k), j + 2) == Some(e)
    ensures MatchAt(s, k, i) == Some(Match(i, s[i + 1..j], s[j + 2..e]))
  {
  }

  /** No match in `ms` that starts before `m` reaches into it. */
  predicate Uncovered(ms: seq<Match>, k: Kind, m: Match) {
    forall t :: 0 <= t < |ms| && ms[t].start < m.start ==> End(ms[t], k) <= m.start
  }

  lemma UncoveredTail(m0: Match, rest: seq<Match>, k: Kind)
    ensures forall m :: Uncovered([m0] + rest, k, m) ==> Uncovered(rest, k, m)
  {
    forall m | Uncovered([m0] + rest, k, m) ensures Uncovered(rest, k, m) {
      forall t | 0 <= t < |rest| && rest[t].start < m.start ensures End(rest[t], k) <= m.start {
        assert ([m0] + rest)[t + 1] == rest[t];
      }
    }
  }

  /** The matches from position `i` on, leftmost first: every match found
      is a match of the pattern, and they come in order without overlap;
      `ScanFromComplete` states that none is missed. */
  function ScanFrom(s: string, k: Kind, i: nat): (ms: seq<Match>)
    requires i <= |s|
    decreases |s| - i
    ensures forall t :: 0 <= t < |ms| ==> i <= ms[t].start && Matches(s, k, ms[t])
    ensures Ordered(ms, k)
  {
    if i == |s| then []
    else if s[i] == '[' then
      match MatchAt(s, k, i)
      case Some(m) => [m] + ScanFrom(s, k, End(m, k))
      case None => ScanFrom(s, k, i + 1)
    else ScanFrom(s, k, i + 1)
  }

  /** `[...s.matchAll(pattern)]`: matches of the pattern, in order and
      without overlap; `MatchAllComplete` states that none is missed. */
  function MatchAll(s: string, k: Kind): (ms: seq<Match>)
    ensures forall t :: 0 <= t < |ms| ==> Matches(s, k, ms[t])
    ensures Ordered(ms, k)
  {
    ScanFrom(s, k, 0)
  }

  /** The scan misses nothing: every match of the pattern at or after `i`
      that no match found before it overlaps is found. */
  lemma {:induction false} ScanFromComplete(s: string, k: Kind, i: nat, m: Match)
    requires i <= |s| && Matches(s, k, m) && i <= m.start
    requires Uncovered(ScanFrom(s, k, i), k, m)
    ensures m in ScanFrom(s, k, i)
    decreases |s| - i
  {
    MatchAtComplete(s, k, m);
    if i == m.start {
    } else if s[i] == '[' && MatchAt(s, k, i).Some? {
      var m0 := MatchAt(s, k, i).value;
      var rest := ScanFrom(s, k, End(m0, k));
      assert ScanFrom(s, k, i) == [m0] + rest;
      assert ([m0] + rest)[0] == m0;
      UncoveredTail(m0, rest, k);
      ScanFromComplete(s, k, End(m0, k), m);
    } else {
      ScanFromComplete(s, k, i + 1, m);
    }
  }

  /** Every match of the pattern that no earlier match overlaps is among
      the matches `matchAll` returns. */
  lemma MatchAllComplete(s: string, k: Kind)
    ensures forall m :: Matches(s, k, m) && Uncovered(MatchAll(s, k), k, m) ==> m in MatchAll(s, k)
  {
    forall m | Matches(s, k, m) && Uncovered(MatchAll(s, k), k, m) ensures m in MatchAll(s, k) {
      ScanFromComplete(s, k, 0, m);
    }
  }

  lemma {:induction false} ScanFromNoBracket(s: string, k: Kind, i: nat)
    requires i <= |s| && '[' !in s[i..]
    ensures ScanFrom(s, k, i) == []
    decreases |s| - i
  {
    if i < |s| {
      assert s[i] == s[i..][0];
      assert s[i + 1..] == s[i..][1..];
      ScanFromNoBracket(s, k, i + 1);
    }
  }

  // ---------------------------------------------------------------------
  // Removing the matched markup
  // ---------------------------------------------------------------------

  /** `ms.forEach(m => s = s.replace(m[0], ''))`: each match's text, in
      order, is removed where it first occurs in what is left. */
  function RemoveEach(s: string, ms: seq<Match>, k: Kind): string {
    if |ms| == 0 then s
    else RemoveFirst(RemoveEach(s, ms[..|ms| - 1], k), Whole(ms[|ms| - 1], k))
  }

  /** The total length of the matched text. */
  function MatchedLength(ms: seq<Match>, k: Kind): nat {
    if |ms| == 0 then 0 else MatchedLength(ms[..|ms| - 1], k) + |Whole(ms[|ms| - 1], k)|
  }

  /** Cutting a piece out before a later occurrence keeps that occurrence,
      shifted left by the length of the piece. */
  lemma CutBefore(s: string, p: nat, len: nat, w: string, q: nat)
    requires p + len <= q && OccursAt(s, w, q)
    ensures OccursAt(s[..p] + s[p + len..], w, q - len)
  {
    var r := s[..p] + s[p + len..];
    assert r[q - len..q - len + |w|] == s[q..q + |w|];
  }

  /** Every match from the `i`-th on occurs in `cur`, shifted left by `gone`. */
  predicate StillThere(cur: string, ms: seq<Match>, k: Kind, i: nat, gone: nat) {
    forall t :: i <= t < |ms| ==> gone <= ms[t].start && OccursAt(cur, Whole(ms[t], k), ms[t].start - gone)
  }

  /** Removing the first occurrence of the `i`-th match keeps the later
      ones: that occurrence lies at or before the match itself, so wholly
      before every later match. */
  lemma RemoveStep(cur: string, ms: seq<Match>, k: Kind, i: nat, gone: nat, w: string,
                   after: string, removed: nat)
    requires Ordered(ms, k) && 0 < i <= |ms| && w == Whole(ms[i - 1], k)
    requires StillThere(cur, ms, k, i - 1, gone)
    requires after == RemoveFirst(cur, w) && removed == gone + |w|
    ensures |after| == |cur| - |w|
    ensures StillThere(after, ms, k, i, removed)
  {
    var q := ms[i - 1].start - gone;
    assert OccursAt(cur, w, q);
    var p := IndexOf(cur, w);
    assert 0 <= p <= q;
    assert after == cur[..p] + cur[p + |w|..];
    forall t | i <= t < |ms|
      ensures removed <= ms[t].start
      ensures OccursAt(after, Whole(ms[t], k), ms[t].start - removed)
    {
      LaterKept(cur, ms, k, i, gone, p, t, w, after, removed);
    }
  }

  /** One later match survives cutting out `w`, the `i - 1`-th match's
      text, at `p`, at or before where that match was. */
  lemma LaterKept(cur: string, ms: seq<Match>, k: Kind, i: nat, gone: nat, p: nat, t: nat,
                  w: string, after: string, removed: nat)
    requires Ordered(ms, k) && 0 < i <= t < |ms| && w == Whole(ms[i - 1], k)
    requires StillThere(cur, ms, k, i - 1, gone)
    requires p <= ms[i - 1].start - gone && p + |w| <= |cur|
    requires after == cur[..p] + cur[p + |w|..] && removed == gone + |w|
    ensures removed <= ms[t].start
    ensures OccursAt(after, Whole(ms[t], k), ms[t].start - removed)
  {
    assert gone <= ms[t].start && OccursAt(cur, Whole(ms[t], k), ms[t].start - gone);
    assert gone <= ms[i - 1].start;
    OrderedStep(ms, k, i - 1, t);
    CutBefore(cur, p, |w|, Whole(ms[t], k), ms[t].start - gone);
  }

  lemma MatchedLengthSnoc(ms: seq<Match>, k: Kind, i: nat)
    requires i < |ms|
    ensures MatchedLength(ms[..i + 1], k) == MatchedLength(ms[..i], k) + |Whole(ms[i], k)|
  {
    assert ms[..i + 1][..i] == ms[..i];
  }

  /** One more removal keeps what `RemoveEachKeepsLater` states. */
  lemma KeepsLaterStep(s: string, ms: seq<Match>, k: Kind, i: nat)
    requires Ordered(ms, k) && 0 < i <= |ms|
    requires |RemoveEach(s, ms[..i - 1], k)| == |s| - MatchedLength(ms[..i - 1], k)
    requires StillThere(RemoveEach(s, ms[..i - 1], k), ms, k, i - 1, MatchedLength(ms[..i - 1], k))
    ensures |RemoveEach(s, ms[..i], k)| == |s| - MatchedLength(ms[..i], k)
    ensures StillThere(RemoveEach(s, ms[..i], k), ms, k, i, MatchedLength(ms[..i], k))
  {
    var j := i - 1;
    var cur := RemoveEach(s, ms[..j], k);
    var gone := MatchedLength(ms[..j], k);
    var w := Whole(ms[j], k);
    RemoveEachSnoc(s, ms, k, j);
    MatchedLengthSnoc(ms, k, j);
    assert j + 1 == i;
    RemoveStep(cur, ms, k, i, gone, w, RemoveEach(s, ms[..i], k), MatchedLength(ms[..i], k));
  }

  /** While the matches are removed one by one, every match not yet removed
      still occurs, shifted left by the length of what was removed. */
  lemma {:induction false} RemoveEachKeepsLater(s: string, ms: seq<Match>, k: Kind, i: nat)
    requires forall t :: 0 <= t < |ms| ==> OccursAt(s, Whole(ms[t], k), ms[t].start)
    requires Ordered(ms, k) && i <= |ms|
    ensures |RemoveEach(s, ms[..i], k)| == |s| - MatchedLength(ms[..i], k)
    ensures StillThere(RemoveEach(s, ms[..i], k), ms, k, i, MatchedLength(ms[..i], k))
    decreases i
  {
    if i == 0 {
      assert ms[..0] == [];
      assert RemoveEach(s, ms[..0], k) == s;
      assert MatchedLength(ms[..0], k) == 0;
    } else {
      RemoveEachKeepsLater(s, ms, k, i - 1);
      KeepsLaterStep(s, ms, k, i);
    }
  }

  lemma {:induction false} OrderedStep(ms: seq<Match>, k: Kind, a: nat, b: nat)
    requires Ordered(ms, k) && a < b < |ms|
    ensures End(ms[a], k) <= ms[b].start
    decreases b - a
  {
    if a + 1 < b {
      OrderedStep(ms, k, a + 1, b);
    }
  }

  /** Removing the matches of a pattern shortens the text by exactly the
      length of the matched markup. */
  lemma RemoveAllMatchesLength(s: string, k: Kind)
    ensures |RemoveEach(s, MatchAll(s, k), k)| == |s| - MatchedLength(MatchAll(s, k), k)
  {
    var ms := MatchAll(s, k);
    assert forall t :: 0 <= t < |ms| ==> OccursAt(s, Whole(ms[t], k), ms[t].start);
    RemoveEachKeepsLater(s, ms, k, |ms|);
    assert ms[..|ms|] == ms;
  }

  // ---------------------------------------------------------------------
  // Answer-button data: the `ans_` prefix
  // ---------------------------------------------------------------------

  const AnsPrefix := "ans_"

  /** The `callback_data` of an answer button for `tag`. */
  function CallbackData(tag: string): string {
    if StartsWith(tag, AnsPrefix) then tag else AnsPrefix + tag
  }

  /** `data.replace('ans_', '')`: what the alert bot records as the answer
      when a button with this data is pressed. */
  function AnswerOf(data: string): string {
    RemoveFirst(data, AnsPrefix)
  }

  lemma CallbackDataHasPrefix(tag: string)
    ensures StartsWith(CallbackData(tag), AnsPrefix)
  {
    assert (AnsPrefix + tag)[..|AnsPrefix|] == AnsPrefix;
  }

  /** Prefixing twice is prefixing once. */
  lemma CallbackDataIdempotent(tag: string)
    ensures CallbackData(CallbackData(tag)) == CallbackData(tag)
  {
    CallbackDataHasPrefix(tag);
  }

  /** Pressing the button gives back the tag the admin wrote, without any
      `ans_` it carried. */
  lemma AnswerOfCallbackData(tag: string)
    ensures !StartsWith(tag, AnsPrefix) ==> AnswerOf(CallbackData(tag)) == tag
    ensures StartsWith(tag, AnsPrefix) ==> AnswerOf(CallbackData(tag)) == tag[|AnsPrefix|..]
  {
    CallbackDataHasPrefix(tag);
    RemoveFirstPrefix(CallbackData(tag), AnsPrefix);
    assert (AnsPrefix + tag)[|AnsPrefix|..] == tag;
  }

  // ---------------------------------------------------------------------
  // The keyboard
  // ---------------------------------------------------------------------

  /** One row per link, in order. */
  function LinkRows(ms: seq<Match>): Keyboard {
    seq(|ms|, t requires 0 <= t < |ms| => [UrlButton(ms[t].text, ms[t].payload)])
  }

  /** One answer button per match, all in one row. */
  function AnswerRow(ms: seq<Match>): seq<Button> {
    seq(|ms|, t requires 0 <= t < |ms| => CallbackButton(ms[t].text, CallbackData(ms[t].payload)))
  }

  datatype Extracted = Extracted(body: string, keyboard: Keyboard)

  /** The buttons `/mreply` reads out of a message and the message left
      once they are taken out. Links are taken first; the answer pattern is
      then matched against what remains. */
  function Buttons(content: string): Extracted {
    var links := MatchAll(content, Link);
    var rest := RemoveEach(content, links, Link);
    var answers := MatchAll(rest, Answer);
    var left := RemoveEach(rest, answers, Answer);
    Extracted(Trim(left), LinkRows(links) + (if |answers| > 0 then [AnswerRow(answers)] else []))
  }

  lemma LinkRowsSnoc(ms: seq<Match>, i: nat)
    requires i < |ms|
    ensures LinkRows(ms[..i + 1]) == LinkRows(ms[..i]) + [[UrlButton(ms[i].text, ms[i].payload)]]
  {
  }

  lemma AnswerRowSnoc(ms: seq<Match>, i: nat)
    requires i < |ms|
    ensures AnswerRow(ms[..i + 1]) == AnswerRow(ms[..i]) + [CallbackButton(ms[i].text, CallbackData(ms[i].payload))]
  {
  }

  lemma RemoveEachSnoc(s: string, ms: seq<Match>, k: Kind, i: nat)
    requires i < |ms|
    ensures RemoveEach(s, ms[..i + 1], k) == RemoveFirst(RemoveEach(s, ms[..i], k), Whole(ms[i], k))
  {
    assert ms[..i + 1][..i] == ms[..i];
  }

  /** Removing the markup: `msgContent` is rewritten match by match while
      the keyboard is built, then trimmed. */
  method ExtractButtons(content: string) returns (body: string, keyboard: Keyboard)
    ensures Extracted(body, keyboard) == Buttons(content)
  {
    var msg := content;
    keyboard := [];
    var links := MatchAll(msg, Link);
    var i := 0;
    while i < |links|
      invariant 0 <= i <= |links|
      invariant keyboard == LinkRows(links[..i])
      invariant msg == RemoveEach(content, links[..i], Link)
    {
      LinkRowsSnoc(links, i);
      RemoveEachSnoc(content, links, Link, i);
      keyboard := keyboard + [[UrlButton(links[i].text, links[i].payload)]];
      msg := RemoveFirst(msg, Whole(links[i], Link));
      i := i + 1;
    }
    assert links[..i] == links;
    ghost var rest := msg;
    var answers := MatchAll(msg, Answer);
    if |answers| > 0 {
      var row: seq<Button> := [];
      var j := 0;
      while j < |answers|
        invariant 0 <= j <= |answers|
        invariant row == AnswerRow(answers[..j])
        invariant msg == RemoveEach(rest, answers[..j], Answer)
      {
        AnswerRowSnoc(answers, j);
        RemoveEachSnoc(rest, answers, Answer, j);
        row := row + [CallbackButton(answers[j].text, CallbackData(answers[j].payload))];
        msg := RemoveFirst(msg, Whole(answers[j], Answer));
        j := j + 1;
      }
      assert answers[..j] == answers;
      keyboard := keyboard + [row];
    }
    body := Trim(msg);
  }

  /** Every answer button's data carries the `ans_` prefix. */
  lemma AnswerButtonsPrefixed(content: string)
    ensures forall row, b :: row in Buttons(content).keyboard && b in row && b.CallbackButton? ==>
      StartsWith(b.data, AnsPrefix)
  {
    var links := MatchAll(content, Link);
    var answers := MatchAll(RemoveEach(content, links, Link), Answer);
    var extra := if |answers| > 0 then [AnswerRow(answers)] else [];
    assert Buttons(content).keyboard == LinkRows(links) + extra;
    LinkRowsHoldLinks(links);
    AnswerRowPrefixed(answers);
  }

  lemma LinkRowsHoldLinks(ms: seq<Match>)
    ensures forall row, b :: row in LinkRows(ms) && b in row ==> b.UrlButton?
  {
    forall row, b | row in LinkRows(ms) && b in row ensures b.UrlButton? {
      var t :| 0 <= t < |ms| && LinkRows(ms)[t] == row;
    }
  }

  lemma AnswerRowPrefixed(ms: seq<Match>)
    ensures forall b :: b in AnswerRow(ms) ==> b.CallbackButton? && StartsWith(b.data, AnsPrefix)
  {
    forall b | b in AnswerRow(ms) ensures b.CallbackButton? && StartsWith(b.data, AnsPrefix) {
      var t :| 0 <= t < |ms| && AnswerRow(ms)[t] == b;
      CallbackDataHasPrefix(ms[t].payload);
    }
  }

  /** A message with no `[` has no buttons and is only trimmed. */
  lemma NoMarkupNoButtons(content: string)
    requires '[' !in content
    ensures Buttons(content) == Extracted(Trim(content), [])
  {
    ScanFromNoBracket(content, Link, 0);
    ScanFromNoBracket(content, Answer, 0);
  }

  /** The keyboard has one row per link and, when there is any answer
      markup, one more row; so it is empty exactly when no markup matched. */
  lemma KeyboardRows(content: string)
    ensures var links := MatchAll(content, Link);
            var answers := MatchAll(RemoveEach(content, links, Link), Answer);
            |Buttons(content).keyboard| == |links| + (if |answers| > 0 then 1 else 0)
  {
  }

  // ---------------------------------------------------------------------
  // HTML escaping of names
  // ---------------------------------------------------------------------

  /** `name.replace(/&/g, "&amp;").replace(/</g, "&lt;").replace(/>/g, "&gt;")`. */
  function EscapeHtml(s: string): string {
    ReplaceChar(ReplaceChar(ReplaceChar(s, '&', "&amp;"), '<', "&lt;"), '>', "&gt;")
  }

  /** The escape of one character. */
  function EscapeChar(c: char): string {
    if c == '&' then "&amp;" else if c == '<' then "&lt;" else if c == '>' then "&gt;" else [c]
  }

  /** Escaping character by character: the reference the three passes are
      compared with. */
  function EscapeEach(s: string): string {
    if |s| == 0 then "" else EscapeChar(s[0]) + EscapeEach(s[1..])
  }

  lemma EscapeHtmlOne(c: char)
    ensures EscapeHtml([c]) == EscapeChar(c)
  {
    ReplaceCharOne(c, '&', "&amp;");
    if c == '&' {
      assert '<' !in "&amp;" && '>' !in "&amp;";
    } else if c == '<' {
      ReplaceCharOne(c, '<', "&lt;");
      assert '>' !in "&lt;";
    } else {
      ReplaceCharOne(c, '<', "&lt;");
      ReplaceCharOne(c, '>', "&gt;");
    }
  }

  lemma EscapeHtmlAppend(a: string, b: string)
    ensures EscapeHtml(a + b) == EscapeHtml(a) + EscapeHtml(b)
  {
    ReplaceCharAppend(a, b, '&', "&amp;");
    var a1, b1 := ReplaceChar(a, '&', "&amp;"), ReplaceChar(b, '&', "&amp;");
    ReplaceCharAppend(a1, b1, '<', "&lt;");
    var a2, b2 := ReplaceChar(a1, '<', "&lt;"), ReplaceChar(b1, '<', "&lt;");
    ReplaceCharAppend(a2, b2, '>', "&gt;");
  }

  /** Because `&` is replaced first, the three passes escape every
      character exactly once: no `&` introduced by a later pass is escaped
      again. */
  lemma {:induction false} EscapeHtmlIsPerCharacter(s: string)
    ensures EscapeHtml(s) == EscapeEach(s)
  {
    if |s| > 0 {
      assert s == [s[0]] + s[1..];
      EscapeHtmlAppend([s[0]], s[1..]);
      EscapeHtmlOne(s[0]);
      EscapeHtmlIsPerCharacter(s[1..]);
    } else {
      assert EscapeHtml(s) == s;
    }
  }

  /** An escaped name holds no raw `<` or `>`. */
  lemma EscapedHasNoAngles(s: string)
    ensures '<' !in EscapeHtml(s) && '>' !in EscapeHtml(s)
  {
    var a := ReplaceChar(s, '&', "&amp;");
    var b := ReplaceChar(a, '<', "&lt;");
    assert '<' !in "&lt;" && '<' !in "&gt;" && '>' !in "&gt;";
    assert '<' !in b;
  }

  /** Decoding the three entities the escape produces. */
  function UnescapeHtml(s: string): string {
    if |s| == 0 then ""
    else if StartsWith(s, "&amp;") then "&" + UnescapeHtml(s[5..])
    else if StartsWith(s, "&lt;") then "<" + UnescapeHtml(s[4..])
    else if StartsWith(s, "&gt;") then ">" + UnescapeHtml(s[4..])
    else [s[0]] + UnescapeHtml(s[1..])
  }

  /** Decoding reads the escape of one character back as that character. */
  lemma UnescapeOne(c: char, rest: string)
    ensures UnescapeHtml(EscapeChar(c) + rest) == [c] + UnescapeHtml(rest)
  {
    var e := EscapeChar(c) + rest;
    var n := |EscapeChar(c)|;
    assert e[n..] == rest;
    if c == '&' {
      assert e[..5] == "&amp;";
    } else if c == '<' {
      assert e[1] == 'l';
      assert !StartsWith(e, "&amp;");
      assert e[..4] == "&lt;";
    } else if c == '>' {
      assert e[1] == 'g';
      assert !StartsWith(e, "&amp;") && !StartsWith(e, "&lt;");
      assert e[..4] == "&gt;";
    } else {
      assert e[0] == c;
      assert !StartsWith(e, "&amp;") && !StartsWith(e, "&lt;") && !StartsWith(e, "&gt;");
    }
  }

  lemma {:induction false} UnescapeEscapeEach(s: string)
    ensures UnescapeHtml(EscapeEach(s)) == s
  {
    if |s| > 0 {
      UnescapeOne(s[0], EscapeEach(s[1..]));
      UnescapeEscapeEach(s[1..]);
      assert s == [s[0]] + s[1..];
    }
  }

  /** Escaping loses nothing: the name can be read back. */
  lemma UnescapeEscape(s: string)
    ensures UnescapeHtml(EscapeHtml(s)) == s
  {
    EscapeHtmlIsPerCharacter(s);
    UnescapeEscapeEach(s);
  }

  // ---------------------------------------------------------------------
  // `{name}` templating
  // ---------------------------------------------------------------------

  const NamePlaceholder := "{name}"

  /** `template.replace(/{name}/g, name)`, the name taken literally. */
  function FillName(template: string, name: string): string {
    ReplaceAll(template, NamePlaceholder, name)
  }

  /** `parts.join(sep)` with a string separator. */
  function JoinWith(parts: seq<string>, sep: string): string
    requires |parts| >= 1
  {
    if |parts| == 1 then parts[0] else parts[0] + sep + JoinWith(parts[1..], sep)
  }

  predicate NoPlaceholder(t: string) {
    forall i :: 0 <= i < |t| ==> !OccursAt(t, NamePlaceholder, i)
  }

  lemma BraceOnlyFirst(d: nat)
    requires 1 <= d < |NamePlaceholder|
    ensures NamePlaceholder[d] != '{'
  {
    if d == 1 {} else if d == 2 {} else if d == 3 {} else if d == 4 {} else {}
  }

  /** `{name}` cannot overlap itself, so no occurrence starts in a run
      without one and reaches into the `{name}` that follows it. */
  lemma NoStraddle(a: string, rest: string)
    requires NoPlaceholder(a)
    ensures forall i :: 0 <= i < |a| ==> !OccursAt(a + NamePlaceholder + rest, NamePlaceholder, i)
  {
    var s := a + NamePlaceholder + rest;
    assert |NamePlaceholder| == 6 && NamePlaceholder[0] == '{';
    forall i | 0 <= i < |a| ensures !OccursAt(s, NamePlaceholder, i) {
      if i + 6 <= |a| {
        assert a[i..i + 6] == s[i..i + 6];
        assert !OccursAt(a, NamePlaceholder, i);
      } else {
        assert s[|a|] == NamePlaceholder[0];
        BraceOnlyFirst(|a| - i);
        assert s[i..i + 6][|a| - i] == s[|a|];
      }
    }
  }

  /** Filling a template cut at its placeholders puts the name between the
      pieces: every `{name}` is replaced, and nothing else changes. */
  lemma {:induction false} FillNameJoin(parts: seq<string>, name: string)
    requires |parts| >= 1
    requires forall k :: 0 <= k < |parts| ==> NoPlaceholder(parts[k])
    ensures FillName(JoinWith(parts, NamePlaceholder), name) == JoinWith(parts, name)
    decreases |parts|
  {
    if |parts| == 1 {
      ReplaceAllAbsent(parts[0], NamePlaceholder, name);
    } else {
      var rest := JoinWith(parts[1..], NamePlaceholder);
      NoStraddle(parts[0], rest);
      ReplaceAllSkip(parts[0], NamePlaceholder, name, rest);
      FillNameJoin(parts[1..], name);
    }
  }

  /** A template without the placeholder is sent as it is. */
  lemma FillNameAbsent(template: string, name: string)
    requires IndexOf(template, NamePlaceholder) == -1
    ensures FillName(template, name) == template
  {
    ReplaceAllAbsent(template, NamePlaceholder, name);
  }
}
