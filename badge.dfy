/**
 * The text of a badge: a count clamped from below at `min`, shown as
 * "<max>+" once the clamped value exceeds `max`, with repeated texts in a
 * row suppressed; and the "read"/"unread" modifiers driven by one flag.
 */
module Badge {
  import opened Wrappers
  import opened Decimal

  const DefaultMin: int := 0
  const DefaultMax: int := 999

  /** The count after clamping from below (Kotlin's `max(n, min)`). */
  function Lower(n: int, min: int): (r: int)
    ensures r >= n && r >= min
    ensures r == n || r == min
  {
    if n >= min then n else min
  }

  /** The text shown for count `n`. */
  function BadgeText(n: int, min: int, max: int): string {
    var lower := Lower(n, min);
    if lower > max then IntToString(max) + "+" else IntToString(lower)
  }

  /** What a badge text says: a shown number, or that the count is over `max`. */
  datatype Shown = Exactly(value: int) | Over(max: int)

  /** Reads a badge text back. */
  function ParseBadgeText(s: string): Option<Shown> {
    if |s| > 0 && s[|s| - 1] == '+' then
      match ParseInt(s[..|s| - 1])
      case Some(m) => Some(Over(m))
      case None => None
    else
      match ParseInt(s)
      case Some(v) => Some(Exactly(v))
      case None => None
  }

  /**
   * What the text of count `n` says: "<max>+" when `max(n, min)` exceeds
   * `max` however large `n` is, and otherwise the number `max(n, min)`,
   * which is never below `min` and never above `max`.
   */
  lemma BadgeTextMeaning(n: int, min: int, max: int)
    ensures ParseBadgeText(BadgeText(n, min, max)).Some?
    ensures var shown := ParseBadgeText(BadgeText(n, min, max)).value;
      && (shown.Over? <==> (n > max || min > max))
      && (shown.Over? ==> shown.max == max)
      && (shown.Exactly? ==> min <= shown.value <= max && shown.value == (if n < min then min else n))
  {
    var lower := Lower(n, min);
    if lower > max {
      var s := IntToString(max) + "+";
      assert s[..|s| - 1] == IntToString(max);
      ParseIntToString(max);
    } else {
      ParseIntToString(lower);
    }
  }

  /** Between `min` and `max` the text is exactly the numeral of the count. */
  lemma BadgeTextInRange(n: int, min: int, max: int)
    requires min <= n <= max
    ensures BadgeText(n, min, max) == IntToString(n)
  {
  }

  /**
   * The text depends on the count only through `max(n, min)`: every count
   * up to `min` shows the same, and two counts show the same text exactly
   * when they are clamped to the same number or both exceed `max`.
   */
  lemma BadgeTextDependsOnClamped(a: int, b: int, min: int, max: int)
    ensures a <= min && b <= min ==> BadgeText(a, min, max) == BadgeText(b, min, max)
    ensures BadgeText(a, min, max) == BadgeText(b, min, max) <==>
      Lower(a, min) == Lower(b, min) || (Lower(a, min) > max && Lower(b, min) > max)
  {
    BadgeTextMeaning(a, min, max);
    BadgeTextMeaning(b, min, max);
  }

  /** With the default bounds, 1000 shows "999+" and -5 shows "0". */
  lemma DefaultBadgeTexts()
    ensures BadgeText(1000, DefaultMin, DefaultMax) == "999+"
    ensures BadgeText(-5, DefaultMin, DefaultMax) == "0"
    ensures BadgeText(999, DefaultMin, DefaultMax) == "999"
  {
  }

  // ------------------------------------------------------ distinct until changed

  /** No two neighbours of `s` are equal. */
  predicate NoRepeats<X(==)>(s: seq<X>) {
    forall i :: 0 < i < |s| ==> s[i - 1] != s[i]
  }

  /**
   * Kotlin's `distinctUntilChanged` after having passed on `last`: each
   * element is passed on unless it equals the one passed on before it.
   */
  function DistinctAfter<X(==)>(last: Option<X>, s: seq<X>): (r: seq<X>)
    ensures |r| <= |s|
    ensures NoRepeats(r)
    ensures r != [] ==> last != Some(r[0])
    ensures forall x :: x in r ==> x in s
    decreases s
  {
    if s == [] then []
    else if last == Some(s[0]) then DistinctAfter(last, s[1..])
    else [s[0]] + DistinctAfter(Some(s[0]), s[1..])
  }

  /** The value last seen after `s`, when `last` was seen before it. */
  function LastSeen<X>(last: Option<X>, s: seq<X>): Option<X> {
    if s == [] then last else Some(s[|s| - 1])
  }

  /** Position `i` of `s` starts a run: it differs from the value just before it. */
  predicate Kept<X(==)>(last: Option<X>, s: seq<X>, i: int) {
    0 <= i < |s| && if i == 0 then last != Some(s[0]) else s[i - 1] != s[i]
  }

  /**
   * Reference definition: the input with every run of equal neighbours
   * collapsed to its first element, in input order (`last` counts as the
   * element before the first).
   */
  function CollapseRuns<X(==)>(last: Option<X>, s: seq<X>): seq<X>
    decreases |s|
  {
    if s == [] then []
    else CollapseRuns(last, s[..|s| - 1]) + (if Kept(last, s, |s| - 1) then [s[|s| - 1]] else [])
  }

  /**
   * The operation streams: what is passed on for `s` followed by `t` is what
   * is passed on for `s`, then what is passed on for `t` after the last
   * value of `s`.
   */
  lemma {:induction false} DistinctAfterAppend<X>(last: Option<X>, s: seq<X>, t: seq<X>)
    ensures DistinctAfter(last, s + t) == DistinctAfter(last, s) + DistinctAfter(LastSeen(last, s), t)
    decreases s
  {
    if s == [] {
      assert s + t == t;
    } else {
      assert (s + t)[0] == s[0] && (s + t)[1..] == s[1..] + t;
      DistinctAfterAppend(Some(s[0]), s[1..], t);
      assert LastSeen(Some(s[0]), s[1..]) == LastSeen(last, s);
    }
  }

  /** `distinctUntilChanged` is the input with runs collapsed. */
  lemma {:induction false} DistinctAfterIsCollapseRuns<X>(last: Option<X>, s: seq<X>)
    ensures DistinctAfter(last, s) == CollapseRuns(last, s)
    decreases |s|
  {
    if s != [] {
      var p, x := s[..|s| - 1], s[|s| - 1];
      assert s == p + [x];
      DistinctAfterAppend(last, p, [x]);
      DistinctAfterIsCollapseRuns(last, p);
      assert LastSeen(last, p) == Some(x) <==> !Kept(last, s, |s| - 1);
    }
  }

  /** Kotlin's `distinctUntilChanged`: the input with runs of equal neighbours collapsed. */
  function DistinctUntilChanged<X(==)>(s: seq<X>): (r: seq<X>)
    ensures r == CollapseRuns(None, s)
    ensures NoRepeats(r)
  {
    DistinctAfterIsCollapseRuns(None, s);
    DistinctAfter(None, s)
  }

  /** Every value of the input reaches the output; only repeats are dropped. */
  lemma {:induction false} DistinctAfterKeepsValues<X>(last: Option<X>, s: seq<X>)
    ensures forall x :: x in s && Some(x) != last ==> x in DistinctAfter(last, s)
    ensures s != [] ==> DistinctAfter(last, s) != [] || last == Some(s[0])
    decreases s
  {
    if s != [] {
      DistinctAfterKeepsValues(if last == Some(s[0]) then last else Some(s[0]), s[1..]);
      forall x | x in s && Some(x) != last ensures x in DistinctAfter(last, s) {
        if x != s[0] {
          assert x in s[1..];
        }
      }
    }
  }

  /** An input with no repeats passes through unchanged. */
  lemma {:induction false} DistinctUntilChangedOfNoRepeats<X>(s: seq<X>)
    requires NoRepeats(s)
    ensures DistinctUntilChanged(s) == s
  {
    DistinctAfterNoRepeats(None, s);
  }

  /** Dropping repeats twice drops nothing more. */
  lemma DistinctUntilChangedIdempotent<X>(s: seq<X>)
    ensures DistinctUntilChanged(DistinctUntilChanged(s)) == DistinctUntilChanged(s)
  {
    DistinctUntilChangedOfNoRepeats(DistinctUntilChanged(s));
  }

  lemma {:induction false} DistinctAfterNoRepeats<X>(last: Option<X>, s: seq<X>)
    requires NoRepeats(s)
    requires s != [] ==> last != Some(s[0])
    ensures DistinctAfter(last, s) == s
    decreases s
  {
    if s != [] {
      assert NoRepeats(s[1..]) by {
        forall i | 0 < i < |s[1..]| ensures s[1..][i - 1] != s[1..][i] {
          assert s[i] != s[i + 1];
        }
      }
      if |s| > 1 {
        assert s[0] != s[1];
      }
      DistinctAfterNoRepeats(Some(s[0]), s[1..]);
    }
  }

  /** The text of each count, before repeats are dropped. */
  function CountTexts(counts: seq<int>, min: int, max: int): (texts: seq<string>)
    ensures |texts| == |counts|
    ensures forall i :: 0 <= i < |counts| ==> texts[i] == BadgeText(counts[i], min, max)
  {
    seq(|counts|, i requires 0 <= i < |counts| => BadgeText(counts[i], min, max))
  }

  /**
   * The texts a badge bound to a stream of counts shows, in order: the text
   * of each count with runs of equal texts collapsed, so no text twice in a
   * row, and every text some count maps to.
   */
  function BadgeTexts(counts: seq<int>, min: int, max: int): (texts: seq<string>)
    ensures texts == CollapseRuns(None, CountTexts(counts, min, max))
    ensures NoRepeats(texts)
    ensures forall t :: t in texts <==> t in CountTexts(counts, min, max)
  {
    var mapped := CountTexts(counts, min, max);
    DistinctAfterKeepsValues(None, mapped);
    DistinctUntilChanged(mapped)
  }

  /** A run of equal values after that same value passes nothing on. */
  lemma {:induction false} DistinctAfterRun<X>(x: X, s: seq<X>)
    requires forall i :: 0 <= i < |s| ==> s[i] == x
    ensures DistinctAfter(Some(x), s) == []
    decreases s
  {
    if s != [] {
      DistinctAfterRun(x, s[1..]);
    }
  }

  /** Counts that all stay at or below `min` show one text, that of `min`. */
  lemma BadgeTextsAtOrBelowMin(counts: seq<int>, min: int, max: int)
    requires counts != []
    requires forall i :: 0 <= i < |counts| ==> counts[i] <= min
    ensures BadgeTexts(counts, min, max) == [BadgeText(min, min, max)]
  {
    var mapped := CountTexts(counts, min, max);
    var x := BadgeText(min, min, max);
    forall i | 0 <= i < |mapped| ensures mapped[i] == x {
      BadgeTextDependsOnClamped(counts[i], min, min, max);
    }
    DistinctAfterRun(x, mapped[1..]);
  }

  // ------------------------------------------------------ read / unread

  datatype ReadModifier = ReadMod | UnreadMod

  /** A new badge is marked read. */
  const InitiallyRead: bool := true

  /** The modifier classes for the read flag: exactly one of the two is on. */
  function ReadClassMap(read: bool): (m: map<ReadModifier, bool>)
    ensures m.Keys == {ReadMod, UnreadMod}
    ensures m[ReadMod] == read && m[UnreadMod] == !read
    ensures m[ReadMod] != m[UnreadMod]
  {
    map[ReadMod := read, UnreadMod := !read]
  }

  /** A new badge shows the read modifier and not the unread one. */
  lemma NewBadgeIsRead()
    ensures ReadClassMap(InitiallyRead)[ReadMod] && !ReadClassMap(InitiallyRead)[UnreadMod]
  {
  }
}
