/** A packed message as a list of tagged members, and the scan that finds them. */
module Members {
  import opened Bytes
  import opened Wire

  /** A member as the scan leaves it: its tag, the kind of its body, how many bytes of the body are a
      length in front, and the body. */
  datatype Member = Member(tag: uint32, wire: nat, prefix: nat, body: seq<byte>)

  datatype Extent = Extent(len: nat, prefix: nat) | NoExtent

  /** How far the body at the front of `s` reaches. */
  function BodyExtent(wire: nat, s: seq<byte>): (e: Extent)
    ensures e.Extent? ==> 0 < e.len <= |s| && e.prefix <= e.len
  {
    if wire == VARINT then
      var n := VarintEnd(s, 10);
      if n == 0 then NoExtent else Extent(n, 0)
    else if wire == SIXTYFOUR then if |s| < 8 then NoExtent else Extent(8, 0)
    else if wire == PREFIXED then
      var n := VarintEnd(s, 5);
      if n == 0 then NoExtent
      else
        var len := n + VarintValue(s[..n]) % UINT32;
        if len > |s| then NoExtent else Extent(len, n)
    else if wire == THIRTYTWO then if |s| < 4 then NoExtent else Extent(4, 0)
    else NoExtent
  }

  datatype Scanned = One(member: Member, used: nat) | NoMember

  /** The member at the front. */
  function ScanOne(s: seq<byte>): (r: Scanned)
    ensures r.One? ==> 0 < |r.member.body| < r.used <= |s| && GoodMember(r.member)
  {
    var n := VarintEnd(s, 5);
    if n == 0 then NoMember
    else
      var head := VarintValue(s[..n]);
      var extent := BodyExtent(head % 8, s[n..]);
      if extent.NoExtent? then NoMember
      else
        var body := s[n..][..extent.len];
        assert BodyExtent(head % 8, body) == extent by { ExtentOfFront(head % 8, s[n..]); }
        One(Member(head / 8 % UINT32, head % 8, extent.prefix, body), n + extent.len)
  }

  datatype All = Found(members: seq<Member>) | Bad

  /** The members from front to back. */
  function ScanAll(s: seq<byte>): (r: All)
    ensures r.Found? ==> forall i | 0 <= i < |r.members| :: GoodMember(r.members[i]) && |r.members[i].body| < |s|
    decreases |s|
  {
    if |s| == 0 then Found([])
    else match ScanOne(s)
      case NoMember => Bad
      case One(member, used) =>
        match ScanAll(s[used..])
        case Bad => Bad
        case Found(members) => Found([member] + members)
  }

  /** A body that its wire type takes whole. */
  predicate GoodMember(m: Member) {
    BodyExtent(m.wire, m.body) == Extent(|m.body|, m.prefix) && m.wire < 8
  }

  function MemberBytes(m: Member): seq<byte>
    requires m.wire < 8
  {
    Tag(m.tag, m.wire) + m.body
  }

  predicate GoodMembers(ms: seq<Member>) {
    forall i | 0 <= i < |ms| :: GoodMember(ms[i])
  }

  predicate Tagged(ms: seq<Member>) {
    forall i | 0 <= i < |ms| :: ms[i].wire < 8
  }

  function Concat(ms: seq<Member>): seq<byte>
    requires Tagged(ms)
  {
    if |ms| == 0 then [] else MemberBytes(ms[0]) + Concat(ms[1..])
  }

  // ---------------------------------------------------------------------------
  // Lengths that fit 32 bits
  // ---------------------------------------------------------------------------

  /** The length in front of `s`, with the bytes that say it. */
  function PrefixSum(s: seq<byte>): nat {
    var n := VarintEnd(s, 5);
    n + VarintValue(s[..n]) % UINT32
  }

  /** The extent as it is computed in 32 bits: a sum that wraps to 0 is an error like any other. */
  function Extent32(s: seq<byte>): Extent {
    var n, sum := VarintEnd(s, 5), PrefixSum(s) % UINT32;
    if n == 0 || sum == 0 || sum > |s| then NoExtent else Extent(sum, n)
  }

  /** The sum is a 32-bit number, or 2^32 where there cannot be as many bytes. */
  predicate PrefixFits(s: seq<byte>) {
    PrefixSum(s) < UINT32 || PrefixSum(s) == UINT32 > |s|
  }

  /** So it is with the member at the front, if its body has a length. */
  predicate MemberFits(s: seq<byte>) {
    var n := VarintEnd(s, 5);
    n > 0 && VarintValue(s[..n]) % 8 == PREFIXED ==> PrefixFits(s[n..])
  }

  /** And with every member the scan comes to. */
  predicate ScanFits(s: seq<byte>)
    decreases |s|
  {
    |s| > 0 ==> MemberFits(s) && (ScanOne(s).One? ==> ScanFits(s[ScanOne(s).used..]))
  }

  /** A body with its length in front is not longer than 32 bits can say. */
  predicate Short(m: Member) {
    m.wire == PREFIXED ==> |m.body| < UINT32
  }

  predicate AllShort(ms: seq<Member>) {
    forall i | 0 <= i < |ms| :: Short(ms[i])
  }

  lemma FoundMemberFits(s: seq<byte>)
    requires ScanOne(s).One? && Short(ScanOne(s).member)
    ensures MemberFits(s)
  {}

  /** So no length fails to fit where the scan of less than 2^32 bytes comes to its end. */
  lemma {:induction false} FoundFits(s: seq<byte>)
    requires |s| < UINT32 && ScanAll(s).Found?
    ensures ScanFits(s)
    decreases |s|
  {
    if |s| > 0 {
      FoundMemberFits(s);
      FoundFits(s[ScanOne(s).used..]);
    }
  }

  // ---------------------------------------------------------------------------
  // The scan undoes the concatenation
  // ---------------------------------------------------------------------------

  lemma {:induction false} LeadingAgrees(s: seq<byte>, t: seq<byte>, n: nat)
    requires n <= |s| && n <= |t| && s[..n] == t[..n] && Leading(s) < n
    ensures Leading(t) == Leading(s)
  {
    assert forall i | 0 <= i < n :: s[i] == s[..n][i] == t[i];
    LeadingIs(t, Leading(s));
  }

  /** The extent depends on the bytes it spans alone. */
  lemma ExtentAgrees(wire: nat, s: seq<byte>, t: seq<byte>)
    requires BodyExtent(wire, s).Extent?
    requires var n := BodyExtent(wire, s).len; n <= |t| && s[..n] == t[..n]
    ensures BodyExtent(wire, t) == BodyExtent(wire, s)
  {
    var n := BodyExtent(wire, s).len;
    if wire == VARINT || wire == PREFIXED {
      LeadingAgrees(s, t, n);
      var k := Leading(s) + 1;
      assert s[..k] == s[..n][..k] == t[..n][..k] == t[..k];
    }
  }

  lemma ExtentOfFront(wire: nat, s: seq<byte>)
    requires BodyExtent(wire, s).Extent?
    ensures BodyExtent(wire, s[..BodyExtent(wire, s).len]) == BodyExtent(wire, s)
  {
    var t := s[..BodyExtent(wire, s).len];
    assert t[..|t|] == t;
    ExtentAgrees(wire, s, t);
  }

  /** A tag with what follows it is read back. */
  lemma TagRoundTrip(number: uint32, wire: nat, rest: seq<byte>)
    requires wire < 8
    ensures var tag, s := Tag(number, wire), Tag(number, wire) + rest;
      && VarintEnd(s, 5) == |tag| && s[..|tag|] == tag && s[|tag|..] == rest
      && VarintValue(tag) / 8 % UINT32 == number && VarintValue(tag) % 8 == wire
  {
    var head := 8 * number + wire;
    VarintRoundTrip(head);
    VarintLength32(head);
    VarintEndsThere(Varint(head), rest, 5);
    SmallRemainder(number, UINT32);
    assert head / 8 == number && head % 8 == wire;
  }

  lemma ScanOneOf(m: Member, rest: seq<byte>)
    requires GoodMember(m)
    ensures ScanOne(MemberBytes(m) + rest) == One(m, |MemberBytes(m)|)
  {
    var tag, s := Tag(m.tag, m.wire), MemberBytes(m) + rest;
    assert s == tag + (m.body + rest);
    TagRoundTrip(m.tag, m.wire, m.body + rest);
    assert (m.body + rest)[..|m.body|] == m.body == m.body[..|m.body|];
    ExtentAgrees(m.wire, m.body, m.body + rest);
  }

  /** Scanning the concatenation finds the members, in order. */
  lemma {:induction false} ScanOfConcat(ms: seq<Member>)
    requires GoodMembers(ms)
    ensures ScanAll(Concat(ms)) == Found(ms)
  {
    if |ms| > 0 {
      var rest := Concat(ms[1..]);
      var all := MemberBytes(ms[0]) + rest;
      assert ScanOne(all) == One(ms[0], |MemberBytes(ms[0])|) by {
        ScanOneOf(ms[0], rest);
      }
      assert all[|MemberBytes(ms[0])|..] == rest;
      assert ScanAll(rest) == Found(ms[1..]) by {
        ScanOfConcat(ms[1..]);
      }
      assert [ms[0]] + ms[1..] == ms;
    }
  }

  lemma {:induction false} ConcatJoin(ms: seq<Member>, ns: seq<Member>)
    requires Tagged(ms) && Tagged(ns)
    ensures Tagged(ms + ns) && Concat(ms + ns) == Concat(ms) + Concat(ns)
  {
    if |ms| == 0 {
      assert ms + ns == ns;
    } else {
      var first := MemberBytes(ms[0]);
      assert (ms + ns)[1..] == ms[1..] + ns;
      assert Concat(ms[1..] + ns) == Concat(ms[1..]) + Concat(ns) by {
        ConcatJoin(ms[1..], ns);
      }
      Associates(first, Concat(ms[1..]), Concat(ns));
    }
  }

  /** Nor where the scan of any members one after the other does. */
  lemma {:induction false} ConcatFits(ms: seq<Member>)
    requires GoodMembers(ms) && AllShort(ms)
    ensures ScanFits(Concat(ms))
  {
    if |ms| > 0 {
      var first, rest := MemberBytes(ms[0]), Concat(ms[1..]);
      assert ScanOne(first + rest) == One(ms[0], |first|) by {
        ScanOneOf(ms[0], rest);
      }
      assert (first + rest)[|first|..] == rest;
      FoundMemberFits(first + rest);
      ConcatFits(ms[1..]);
    }
  }
}
