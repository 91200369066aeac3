/** CharRanges: splitting the bytes of an edge into long ranges and single bytes. */
module CharRanges {
  import opened DfaGraphs

  ghost predicate Sorted(k: seq<Byte>) {
    forall i, j :: 0 <= i < j < |k| ==> k[i] <= k[j]
  }

  function Elements(k: seq<Byte>): set<Byte> {
    set b | b in k
  }

  /** A stretch of consecutive bytes that cannot be extended. */
  ghost predicate MaximalRun(s: set<Byte>, lo: int, hi: int) {
    lo <= hi && lo - 1 !in s && hi + 1 !in s && forall b :: lo <= b <= hi ==> b in s
  }

  /** A run becomes a range only when its ends are at least 16 apart. */
  ghost predicate LongRun(s: set<Byte>, lo: int, hi: int) {
    MaximalRun(s, lo, hi) && hi - lo >= 16
  }

  ghost predicate Covered(ranges: seq<(Byte, Byte)>, b: Byte) {
    exists r :: r in ranges && r.0 <= b <= r.1
  }

  /** The ranges are exactly the long runs; the remaining bytes stay single. */
  method OptimizeCharRanges(k: seq<Byte>) returns (minMaxes: seq<(Byte, Byte)>, vals: set<Byte>)
    requires Sorted(k)
    ensures forall lo: Byte, hi: Byte :: (lo, hi) in minMaxes <==> LongRun(Elements(k), lo, hi)
    ensures forall b: Byte :: b in vals <==> b in k && !Covered(minMaxes, b)
  {
    hide LongRun, MaximalRun;
    vals := Elements(k);
    if k == [] {
      NoRuns(Elements(k));
      return [], vals;
    }
    minMaxes := CollectRanges(k);
    for j := 0 to |minMaxes|
      invariant forall b: Byte :: b in vals <==> b in k && !Covered(minMaxes[..j], b)
    {
      var (min, max) := minMaxes[j];
      assert minMaxes[..j + 1] == minMaxes[..j] + [(min, max)];
      vals := RemoveRange(vals, min, max);
    }
    assert minMaxes[..|minMaxes|] == minMaxes;
  }

  lemma NoRuns(s: set<Byte>)
    requires s == {}
    ensures forall lo: int, hi: int :: !LongRun(s, lo, hi)
  {
    RunsInside(s);
  }

  method RemoveRange(vals: set<Byte>, min: Byte, max: Byte) returns (left: set<Byte>)
    ensures forall b: Byte :: b in left <==> b in vals && !(min <= b <= max)
  {
    left := vals;
    var code: int := min;
    while code <= max
      invariant min <= code
      invariant forall b: Byte :: b in left <==> b in vals && !(min <= b <= max && b < code)
    {
      left := left - {code};
      code := code + 1;
    }
  }

  /** One pass over the sorted bytes, extending the current run or closing it. */
  method CollectRanges(k: seq<Byte>) returns (minMaxes: seq<(Byte, Byte)>)
    requires Sorted(k) && k != []
    ensures forall lo: Byte, hi: Byte :: (lo, hi) in minMaxes <==> LongRun(Elements(k), lo, hi)
  {
    hide MaximalRun;
    minMaxes := [];
    var curMin, curMax := k[0], k[0];
    FirstRun(k);
    for i := 1 to |k|
      invariant curMin <= curMax == k[i - 1] && MaximalRun(Elements(k[..i]), curMin, curMax)
      invariant forall lo: Byte, hi: Byte ::
        (lo, hi) in minMaxes <==> LongRun(Elements(k[..i]), lo, hi) && hi < curMin
    {
      var val := k[i];
      NextByte(k, i, curMin, curMax);
      if curMax == val {
        continue;
      } else if curMax + 1 == val {
        curMax := val;
      } else {
        if curMax - curMin >= 16 {
          minMaxes := minMaxes + [(curMin, curMax)];
        }
        curMin := val;
        curMax := val;
      }
    }
    assert k[..|k|] == k;
    LastRun(k, curMin, curMax);
    if curMax - curMin >= 16 {
      minMaxes := minMaxes + [(curMin, curMax)];
    }
  }

  lemma FirstRun(k: seq<Byte>)
    requires k != []
    ensures MaximalRun(Elements(k[..1]), k[0], k[0])
    ensures forall lo: int, hi: int :: MaximalRun(Elements(k[..1]), lo, hi) ==> lo == hi == k[0]
  {
    assert k[..1] == [k[0]];
    RunsInside(Elements(k[..1]));
  }

  lemma RunsInside(s: set<Byte>)
    ensures forall lo: int, hi: int :: MaximalRun(s, lo, hi) ==> lo in s && hi in s
  {
  }

  /** The effect of one more byte on the current run and on the runs before it. */
  lemma NextByte(k: seq<Byte>, i: nat, curMin: Byte, curMax: Byte)
    requires Sorted(k) && 0 < i < |k| && curMax == k[i - 1] && MaximalRun(Elements(k[..i]), curMin, curMax)
    ensures var val, before, after := k[i], Elements(k[..i]), Elements(k[..i + 1]);
      var newMin := if val <= (curMax as int) + 1 then curMin else val;
      && (val <= (curMax as int) + 1 ==> curMin <= val)
      && MaximalRun(after, newMin, val) && newMin <= val
      && (forall lo: int, hi: int :: (MaximalRun(after, lo, hi) && hi < newMin)
           <==> (MaximalRun(before, lo, hi) && (hi < curMin || (hi == curMax && (curMax as int) + 1 < val))))
      && (forall lo: int :: MaximalRun(before, lo, curMax) ==> lo == curMin)
  {
    var val, before, after := k[i], Elements(k[..i]), Elements(k[..i + 1]);
    assert k[..i + 1] == k[..i] + [val];
    assert after == before + {val};
    forall b | b in before
      ensures b <= curMax
    {
      var j :| 0 <= j < i && k[..i][j] == b;
      assert k[j] == b;
    }
    assert curMin in before && curMax in before;
    forall lo: int, hi: int
    {
      RunsBefore(before, curMin, curMax, val, lo, hi);
    }
    OneRun(before, curMin, curMax);
  }

  /** Which runs end before the next byte is added, and how they are affected. */
  lemma RunsBefore(s: set<Byte>, curMin: int, curMax: int, val: Byte, lo: int, hi: int)
    requires MaximalRun(s, curMin, curMax) && (forall b :: b in s ==> b <= curMax) && curMax <= val
    ensures var newMin := if val <= curMax + 1 then curMin else val;
      (MaximalRun(s + {val}, lo, hi) && hi < newMin)
      <==> (MaximalRun(s, lo, hi) && (hi < curMin || (hi == curMax && curMax + 1 < val)))
  {
    var t := s + {val};
    assert curMin in s && curMax in s;
    if MaximalRun(t, lo, hi) {
      assert hi in t;
      assert hi + 1 !in t;
    }
    if MaximalRun(s, lo, hi) {
      assert hi in s;
      assert hi + 1 !in s;
    }
  }

  /** Two runs with the same end are equal. */
  lemma OneRun(s: set<Byte>, lo: int, hi: int)
    requires MaximalRun(s, lo, hi)
    ensures forall l: int :: MaximalRun(s, l, hi) ==> l == lo
  {
    forall l: int | MaximalRun(s, l, hi)
      ensures l == lo
    {
      assert l <= lo - 1 <= hi ==> lo - 1 in s;
      assert lo <= l - 1 <= hi ==> l - 1 in s;
    }
  }

  /** Every run ends before the last one starts, or is the last one. */
  lemma LastRun(k: seq<Byte>, curMin: Byte, curMax: Byte)
    requires k != [] && Sorted(k) && curMax == k[|k| - 1] && MaximalRun(Elements(k), curMin, curMax)
    ensures forall lo: int, hi: int :: MaximalRun(Elements(k), lo, hi) ==> hi < curMin || (lo == curMin && hi == curMax)
  {
    var s := Elements(k);
    OneRun(s, curMin, curMax);
    forall lo: int, hi: int | MaximalRun(s, lo, hi)
      ensures hi < curMin || (lo == curMin && hi == curMax)
    {
      assert hi in s;
      assert curMin <= hi + 1 <= curMax ==> hi + 1 in s;
    }
  }
}
