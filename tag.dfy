/** Course tags and their usage counters. The counter is a nullable Java `Integer`, so an
    increment past `Integer.MAX_VALUE` wraps around. */
module Tags {
  import opened Wrappers
  import opened JavaInt

  /** `incrementUsageCount`'s new value: null counts as 0, so it becomes 1. */
  function Incremented(count: Option<int>): (r: int)
    requires count.Some? ==> IsInt32(count.value)
    ensures IsInt32(r)
    ensures count.None? ==> r == 1
    ensures count.Some? && count.value < INT_MAX ==> r == count.value + 1
    ensures count == Some(INT_MAX) ==> r == INT_MIN
  {
    match count
    case None => 1
    case Some(n) => Wrap32(n + 1)
  }

  /** `decrementUsageCount`'s new value: one less, but never below 0; null becomes 0. */
  function Decremented(count: Option<int>): (r: int)
    ensures r >= 0
    ensures count.Some? && count.value > 0 ==> r == count.value - 1
    ensures count.None? || count.value <= 0 ==> r == 0
  {
    match count
    case None => 0
    case Some(n) => if n > 0 then n - 1 else 0
  }

  /** For a count n >= 0 below the maximum, incrementing then decrementing gives n back. */
  lemma IncrementThenDecrement(n: int)
    requires 0 <= n < INT_MAX
    ensures Decremented(Some(Incremented(Some(n)))) == n
  {
  }

  datatype UsageOp = Increment | Decrement

  /** The counter after a sequence of increments and decrements, applied in order. */
  function ApplyOps(count: Option<int>, ops: seq<UsageOp>): (r: Option<int>)
    requires count.Some? ==> IsInt32(count.value)
    ensures |ops| > 0 ==> r.Some?
    ensures r.Some? ==> IsInt32(r.value)
    decreases |ops|
  {
    if |ops| == 0 then count
    else
      var prev := ApplyOps(count, ops[..|ops| - 1]);
      Some(if ops[|ops| - 1] == Increment then Incremented(prev) else Decremented(prev))
  }

  /** The counter never goes negative, and never exceeds its start plus the number of
      operations, as long as those operations cannot reach `Integer.MAX_VALUE`. */
  lemma {:induction false} UsageStaysNonNegative(count: Option<int>, ops: seq<UsageOp>)
    requires count.Some? ==> 0 <= count.value
    requires (if count.Some? then count.value else 0) + |ops| <= INT_MAX
    ensures var r := ApplyOps(count, ops);
            r.Some? ==> 0 <= r.value <= (if count.Some? then count.value else 0) + |ops|
  {
    if |ops| > 0 {
      UsageStaysNonNegative(count, ops[..|ops| - 1]);
    }
  }

  /** A tag row. Tags are equal when their slugs are; no operation renames a tag once made. */
  class Tag {
    const name: string
    const slug: string
    var usageCount: Option<int>

    /** `new Tag()` followed by `setName` and `setSlug`; the counter starts at 0. */
    constructor (name: string, slug: string)
      ensures this.name == name && this.slug == slug && usageCount == Some(0)
    {
      this.name := name;
      this.slug := slug;
      usageCount := Some(0);
    }

    predicate Valid()
      reads this
    {
      usageCount.Some? ==> IsInt32(usageCount.value)
    }

    /** `incrementUsageCount`. */
    method IncrementUsageCount()
      requires Valid()
      modifies this
      ensures Valid()
      ensures usageCount == Some(Incremented(old(usageCount)))
    {
      match usageCount
      case None => usageCount := Some(1);
      case Some(n) => usageCount := Some(Wrap32(n + 1));
    }

    /** `decrementUsageCount`. */
    method DecrementUsageCount()
      requires Valid()
      modifies this
      ensures Valid()
      ensures usageCount == Some(Decremented(old(usageCount)))
    {
      if usageCount.Some? && usageCount.value > 0 {
        usageCount := Some(usageCount.value - 1);
      } else {
        usageCount := Some(0);
      }
    }
  }
}
