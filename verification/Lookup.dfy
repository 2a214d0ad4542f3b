/** Finding a field by its number in the range table of a descriptor. */
module Lookup {
  import opened Bytes
  import opened Schema

  /** A run of consecutive numbers, and the index of the field with the first of them. The run ends
      where the next one's index says. */
  datatype IntRange = IntRange(startValue: int, origIndex: nat)

  /** The ranges of the fields, with a sentinel behind the last. */
  predicate IsTable(fields: seq<Field>, ranges: seq<IntRange>) {
    && |ranges| >= 1 && ranges[0].origIndex == 0 && ranges[|ranges| - 1].origIndex == |fields|
    && (forall r | 0 <= r < |ranges| - 1 :: InRun(fields, ranges[r], ranges[r + 1]))
    && (forall r, q | 0 <= r < q < |ranges| :: ranges[r].origIndex < ranges[q].origIndex)
  }

  predicate InRun(fields: seq<Field>, range: IntRange, next: IntRange) {
    && range.origIndex < next.origIndex <= |fields|
    && forall j | range.origIndex <= j < next.origIndex :: fields[j].id == range.startValue + (j - range.origIndex)
  }

  /** Every list of fields has a table. */
  lemma TableOf(fields: seq<Field>)
    ensures exists ranges :: IsTable(fields, ranges)
  {
    var ranges := seq(|fields| + 1, i requires 0 <= i < |fields| + 1 =>
      IntRange(if i < |fields| then fields[i].id else 0, i));
    assert IsTable(fields, ranges);
  }

  /** int_range_lookup finds what a linear search finds, for every tag: one of 2^31 or more is a
      negative number to it. */
  method IntRangeLookup(ghost schema: Schema, ghost d: Descriptor, nRanges: nat, ranges: seq<IntRange>, tag: uint32)
    returns (k: int)
    requires WellFormedDescriptor(schema, d) && IsTable(d.fields, ranges) && |ranges| == nRanges + 1
    ensures k == FieldIndex(d.fields, tag)
  {
    var value := ToInt32(tag);
    if nRanges == 0 {
      return -1;
    }
    var start, n := 0, nRanges;
    ghost var found := FieldIndex(d.fields, tag);
    while n > 1
      invariant 0 <= start && 0 <= n && start + n <= nRanges
      invariant found >= 0 ==> ranges[start].origIndex <= found < ranges[start + n].origIndex
      decreases n
    {
      var mid := start + n / 2;
      Decides(schema, d, ranges, mid, tag);
      if value < ranges[mid].startValue {
        n := mid - start;
      } else if value >= ranges[mid].startValue + (ranges[mid + 1].origIndex - ranges[mid].origIndex) {
        var newStart := mid + 1;
        n := start + n - newStart;
        start := newStart;
      } else {
        return (value - ranges[mid].startValue) + ranges[mid].origIndex;
      }
    }
    if n > 0 {
      var startOrigIndex := ranges[start].origIndex;
      var rangeSize := ranges[start + 1].origIndex - startOrigIndex;
      Decides(schema, d, ranges, start, tag);
      if ranges[start].startValue <= value < ranges[start].startValue + rangeSize {
        return (value - ranges[start].startValue) + startOrigIndex;
      }
    }
    k := -1;
  }

  lemma AsInt32(tag: uint32)
    ensures ToInt32(tag) >= 0 || tag < 0x8000_0000 ==> ToInt32(tag) == tag
  {}

  /** What comparing with one run says about the field sought. */
  lemma {:induction false} Decides(schema: Schema, d: Descriptor, ranges: seq<IntRange>, mid: nat, tag: uint32)
    requires WellFormedDescriptor(schema, d) && IsTable(d.fields, ranges) && mid + 1 < |ranges|
    ensures var run, next, value, found := ranges[mid], ranges[mid + 1], ToInt32(tag), FieldIndex(d.fields, tag);
      if value < run.startValue then found < run.origIndex
      else if value >= run.startValue + (next.origIndex - run.origIndex) then found < 0 || found >= next.origIndex
      else found == value - run.startValue + run.origIndex
  {
    var run, next, value, found := ranges[mid], ranges[mid + 1], ToInt32(tag), FieldIndex(d.fields, tag);
    AsInt32(tag);
    assert InRun(d.fields, run, next);
    assert WellFormedField(schema, d.fields[run.origIndex]);
    if run.startValue <= value < run.startValue + (next.origIndex - run.origIndex) {
      var k := value - run.startValue + run.origIndex;
      assert d.fields[k].id == value;
      FieldIndexIs(schema, d, k);
    } else if found >= 0 {
      assert WellFormedField(schema, d.fields[found]) && value == tag;
      Ordered(schema, d, found, run.origIndex);
      Ordered(schema, d, found, next.origIndex - 1);
    }
  }

  lemma Ordered(schema: Schema, d: Descriptor, i: nat, j: nat)
    requires WellFormedDescriptor(schema, d) && i < |d.fields| && j < |d.fields|
    ensures i < j <==> d.fields[i].id < d.fields[j].id
  {
    assert d.fields[i].id == d.fields[i].id && d.fields[j].id == d.fields[j].id;
  }
}
