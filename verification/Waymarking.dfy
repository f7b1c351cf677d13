/** Waymarking: tags in an array of uses from which any slot finds the end of the array.

    Slots are numbered from the end here: slot 0 is the last one.  From the end
    downwards the tags spell, after every stop, the distance from that stop to the end,
    lowest bit first, and then comes the next stop. */
module Waymarking {
  import opened Bits
  import opened Uses

  /** What the tagger still has to spell when it comes to slot d; nothing left means a
      stop, after which it starts on the distance d + 1. */
  function Count(d: nat): nat
    requires d >= 1
  {
    if d == 1 then 1
    else if Count(d - 1) == 0 then d
    else Count(d - 1) / 2
  }

  /** The rule behind the tags. */
  function TagOf(d: nat): Tag {
    if d == 0 then FullStop
    else if Count(d) == 0 then Stop
    else if Count(d) % 2 == 1 then OneDigit
    else ZeroDigit
  }

  predicate IsDigit(t: Tag) {
    t == ZeroDigit || t == OneDigit
  }

  function DigitValue(t: Tag): nat {
    if t == OneDigit then 1 else 0
  }

  const TAGS: seq<Tag> := [
    FullStop,  OneDigit,  Stop,      OneDigit, OneDigit,
    Stop,      ZeroDigit, OneDigit,  OneDigit, Stop,
    ZeroDigit, OneDigit,  ZeroDigit, OneDigit, Stop,
    OneDigit,  OneDigit,  OneDigit,  OneDigit, Stop
  ]

  /** The table of the first twenty tags follows the rule, and the rule goes on from it
      where the loop does. */
  lemma TableFollowsRule()
    ensures forall d :: 0 <= d < 20 ==> TAGS[d] == TagOf(d)
    ensures Count(20) == 20
  {
    assert Count(5) == 0;
    assert Count(9) == 0;
    assert Count(14) == 0;
    assert Count(19) == 0;
  }

  /** The stretch of an array is tagged as the rule says. */
  ghost predicate Tagged(a: array<Use>, beg: nat, end: nat)
    requires end <= a.Length
    reads a, a[..]
  {
    forall i {:trigger a[i].tag} :: beg <= i < end ==> a[i].tag == TagOf(end - 1 - i)
  }

  ghost predicate DistinctSlots(a: array<Use>)
    reads a
  {
    forall i, j :: 0 <= i < j < a.Length ==> a[i] != a[j]
  }

  /** Set up the tags of the slots from beg to end. */
  method InitTags(a: array<Use>, beg: nat, end: nat) returns (r: nat)
    requires beg <= end <= a.Length && DistinctSlots(a)
    modifies a[beg..end]`tag
    ensures r == beg && Tagged(a, beg, end)
  {
    hide Count, TagOf;
    TableFollowsRule();
    var done := 0;
    var curr := end;
    while done < 20
      invariant curr == end - done && beg <= curr && done <= 20
      invariant forall i {:trigger a[i].tag} :: curr <= i < end ==> a[i].tag == TagOf(end - 1 - i)
    {
      if beg == curr {
        return beg;
      }
      curr := curr - 1;
      assert a[curr] == a[beg..end][curr - beg];
      a[curr].tag := TAGS[done];
      done := done + 1;
    }

    assert forall k :: 0 <= k < curr - beg ==> a[beg..curr][k] == a[beg..end][k];
    r := TagDownwards(a, beg, curr, done, end);
  }

  /** The second loop of InitTags: the slots from curr down to beg. */
  method TagDownwards(a: array<Use>, beg: nat, start: nat, done0: nat, ghost end: nat) returns (r: nat)
    requires beg <= start <= end <= a.Length && DistinctSlots(a)
    requires start == end - done0 && done0 >= 20 && Count(done0) == done0 && Tagged(a, start, end)
    modifies a[beg..start]`tag
    ensures r == beg && Tagged(a, beg, end)
  {
    hide Count, TagOf;
    var curr, done := start, done0;
    var count := done;
    while beg != curr
      invariant curr == end - done && beg <= curr <= start && done >= 20 && count == Count(done)
      invariant forall i {:trigger a[i].tag} :: curr <= i < end ==> a[i].tag == TagOf(end - 1 - i)
      decreases curr - beg
    {
      curr := curr - 1;
      assert a[curr] == a[beg..start][curr - beg];
      RuleStep(done);
      if count == 0 {
        a[curr].tag := Stop;
        done := done + 1;
        count := done;
      } else {
        a[curr].tag := if count % 2 == 1 then OneDigit else ZeroDigit;
        count := count / 2;
        done := done + 1;
      }
    }
    return beg;
  }

  lemma RuleStep(d: nat)
    requires d >= 1
    ensures TagOf(d) == if Count(d) == 0 then Stop else if Count(d) % 2 == 1 then OneDigit else ZeroDigit
    ensures Count(d + 1) == if Count(d) == 0 then d + 1 else Count(d) / 2
  {
  }

  // ----- finding the end

  /** Above a stop, the topmost digit is a one: it is what was left before nothing was. */
  lemma TopDigit(s: nat)
    requires TagOf(s) == Stop
    ensures s >= 2 && Count(s - 1) == 1 && TagOf(s - 1) == OneDigit
  {
  }

  /** Reading one more digit doubles the offset and adds the digit; after a stop the
      offset is the distance from it to the end. */
  lemma DigitStep(d: nat)
    ensures IsDigit(TagOf(d)) ==> d >= 1 && Count(d) == 2 * Count(d + 1) + DigitValue(TagOf(d))
    ensures !IsDigit(TagOf(d)) ==> Count(d + 1) == d + 1
  {
  }

  lemma {:induction false} BitLengthMonotone(x: nat, y: nat)
    requires x <= y
    ensures BitLength(x) <= BitLength(y)
  {
    if x == 0 {
    } else {
      BitLengthMonotone(x / 2, y / 2);
    }
  }

  /** A run of digits above a stop is no longer than the distance has bits. */
  lemma {:induction false} RunLength(s: nat, d: nat)
    requires s < d && !IsDigit(TagOf(s)) && forall j :: s < j <= d ==> IsDigit(TagOf(j))
    ensures (d - s) + BitLength(Count(d)) == BitLength(s + 1) + 1 && Count(d) > 0
  {
    DigitStep(s);
    if d == s + 1 {
    } else {
      RunLength(s, d - 1);
      RuleStep(d - 1);
      assert IsDigit(TagOf(d));
    }
  }

  /** From any slot of a tagged array, the position one past its last slot; the number
      of slots looked at is logarithmic in the distance. */
  method GetImpliedUser(a: array<Use>, i: nat, ghost beg: nat, ghost end: nat) returns (r: nat, ghost inspected: nat)
    requires beg <= i < end <= a.Length && Tagged(a, beg, end)
    ensures r == end
    ensures inspected <= 2 * BitLength(end - i) + 1
  {
    hide Count, TagOf, BitLength;
    var curr := i;
    ghost var d := end - 1 - i;
    inspected := 0;
    while true
      invariant i <= curr < end && inspected == curr - i
      invariant forall j :: end - 1 - curr < j <= d ==> IsDigit(TagOf(j))
      decreases end - curr
    {
      ghost var s := end - 1 - curr;
      var tag := a[curr].tag;
      inspected := inspected + 1;
      DigitStep(s);
      curr := curr + 1;
      match tag {
        case ZeroDigit | OneDigit =>
          FirstIsFullStop(s);
          continue;
        case FullStop =>
          OnlyFullStop(s);
          FirstRun(s, d);
          return curr, inspected;
        case Stop =>
          TopDigit(s);
          FirstRun(s, d);
          r, inspected := ReadOffset(a, curr + 1, beg, end, s, inspected);
          BitLengthMonotone(s + 1, end - i);
          return;
      }
    }
  }

  lemma FirstIsFullStop(d: nat)
    requires IsDigit(TagOf(d))
    ensures d > 0
  {
  }

  lemma OnlyFullStop(d: nat)
    requires TagOf(d) == FullStop
    ensures d == 0
  {
  }

  lemma FirstRun(s: nat, d: nat)
    requires s <= d && !IsDigit(TagOf(s)) && forall j :: s < j <= d ==> IsDigit(TagOf(j))
    ensures d - s <= BitLength(s + 1) <= BitLength(d + 1)
  {
    BitLengthMonotone(s + 1, d + 1);
    if s < d {
      RunLength(s, d);
      assert BitLength(Count(d)) > 0;
    }
  }

  /** Past the stop at s and its topmost digit: read the other digits. */
  method ReadOffset(a: array<Use>, start: nat, ghost beg: nat, ghost end: nat, ghost s: nat, ghost before: nat)
    returns (r: nat, ghost inspected: nat)
    requires beg <= start < end <= a.Length && Tagged(a, beg, end)
    requires s >= 2 && start == end - 1 - (s - 2) && TagOf(s) == Stop
    ensures r == end
    ensures inspected <= before + BitLength(s + 1)
  {
    hide Count, TagOf, BitLength;
    TopDigit(s);
    var curr := start;
    var offset := 1;
    inspected := before;
    while true
      invariant start <= curr < end && inspected == before + (curr - start)
      invariant offset == Count(end - 1 - curr + 1)
      invariant forall j :: end - 1 - curr < j <= s - 1 ==> IsDigit(TagOf(j))
      decreases end - curr
    {
      ghost var e := end - 1 - curr;
      var tag := a[curr].tag;
      inspected := inspected + 1;
      DigitStep(e);
      if tag == ZeroDigit || tag == OneDigit {
        FirstIsFullStop(e);
        curr := curr + 1;
        offset := 2 * offset + DigitValue(tag);
      } else {
        FirstRun(e, s - 1);
        BitLengthMonotone(s, s + 1);
        return curr + offset, inspected;
      }
    }
  }
}
