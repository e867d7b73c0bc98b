/** Prefixes, and the sets of prefixes that policies and access lists are written in. */
module Prefixes {
  import opened Bits
  import opened Wrappers

  datatype Family = V4 | V6 {
    function Width(): nat { if V4? then 32 else 128 }
  }

  datatype Addr = Addr(family: Family, value: nat)

  datatype Cidr = Zero | Net(family: Family, addr: nat, bits: nat)

  predicate Masked(p: Cidr) {
    p.Net? ==>
      && p.bits <= p.family.Width()
      && Aligned(p.addr, p.family.Width() - p.bits)
      && p.addr + Pow2(p.family.Width() - p.bits) <= Pow2(p.family.Width())
  }

  /** Every prefix is masked when it is made; Zero is the one that is not valid. */
  type Prefix = p: Cidr | Masked(p) witness Zero

  function Size(p: Prefix): nat
    requires p.Net?
  {
    Pow2(p.family.Width() - p.bits)
  }

  /** netip.Prefix.Bits */
  function BitsOf(p: Prefix): int {
    if p.Zero? then -1 else p.bits
  }

  /** netip.Addr.BitLen of its address */
  function BitLen(p: Prefix): int {
    if p.Zero? then 0 else p.family.Width()
  }

  function First(p: Prefix): Addr
    requires p.Net?
  {
    Addr(p.family, p.addr)
  }

  predicate Contains(p: Prefix, a: Addr) {
    p.Net? && p.family == a.family && p.addr <= a.value < p.addr + Size(p)
  }

  /** A prefix contains the addresses of its family that have its leading bits. */
  lemma ContainsLeadingBits(p: Prefix, a: Addr)
    requires p.Net?
    ensures Contains(p, a) <==>
        p.family == a.family && a.value / Pow2(p.family.Width() - p.bits) == p.addr / Pow2(p.family.Width() - p.bits)
  {
    SameQuotient(p.addr, a.value, Pow2(p.family.Width() - p.bits));
  }

  predicate Overlaps(p: Prefix, q: Prefix) {
    p.Net? && q.Net? && (Contains(p, First(q)) || Contains(q, First(p)))
  }

  /** All of q's block lies inside p's. */
  predicate Covers(p: Prefix, q: Prefix) {
    p.Net? && q.Net? && p.family == q.family && p.addr <= q.addr && q.addr + Size(q) <= p.addr + Size(p)
  }

  /** Two blocks nest or are apart: the more specific one is inside or shares no address. */
  lemma NestOrApart(p: Prefix, q: Prefix)
    requires p.Net? && q.Net? && p.family == q.family && p.bits <= q.bits
    ensures Overlaps(p, q) <==> Contains(p, First(q))
    ensures Contains(p, First(q)) <==> Covers(p, q)
    ensures !Contains(p, First(q)) ==> q.addr + Size(q) <= p.addr || p.addr + Size(p) <= q.addr
  {
    var i, j := q.family.Width() - q.bits, q.family.Width() - p.bits;
    Pow2Grows(i, j);
    if p.addr <= q.addr < p.addr + Pow2(j) {
      BlocksNest(q.addr, i, p.addr, j);
    } else if q.addr < p.addr {
      BlocksApart(q.addr, i, p.addr, j);
    }
  }

  /** Overlaps is sharing an address. */
  lemma OverlapsShares(p: Prefix, q: Prefix)
    ensures Overlaps(p, q) <==> exists a :: Contains(p, a) && Contains(q, a)
  {
    if p.Net? && q.Net? {
      assert Contains(p, First(p)) && Contains(q, First(q));
      if a :| Contains(p, a) && Contains(q, a) {
        if p.bits <= q.bits {
          NestOrApart(p, q);
        } else {
          NestOrApart(q, p);
        }
      }
    }
  }

  /** At most one prefix of a given length contains an address. */
  lemma LengthDetermines(p: Prefix, q: Prefix, a: Addr)
    requires Contains(p, a) && Contains(q, a) && p.bits == q.bits
    ensures p == q
  {
    NestOrApart(p, q);
    NestOrApart(q, p);
  }

  /** A block's first addresses, up to any longer length, are a prefix of their own. */
  lemma Narrower(p: Prefix, bits: nat) returns (q: Prefix)
    requires p.Net? && p.bits <= bits <= p.family.Width()
    ensures q == Net(p.family, p.addr, bits) && Covers(p, q)
  {
    AlignedSmaller(p.addr, p.family.Width() - bits, p.family.Width() - p.bits);
    Pow2Grows(p.family.Width() - bits, p.family.Width() - p.bits);
    q := Net(p.family, p.addr, bits);
  }

  // ---------- sets ----------

  datatype PrefixSet =
    | AnySet
    | ExactSet(prefix: Prefix)
    | RangeSet(base: Prefix, minLen: int, maxLen: int)
    | UnionSet(sets: seq<PrefixSet>)

  /** Whether a route's prefix matches; a union asks its members for their space only. */
  predicate ContainsPrefix(s: PrefixSet, p: Prefix)
    decreases s, 0
  {
    match s
    case AnySet => p.Net?
    case ExactSet(q) => q == p
    case RangeSet(base, minLen, maxLen) =>
      p.Net? && base.Net? && p.family == base.family && Contains(base, First(p)) && minLen <= p.bits <= maxLen
    case UnionSet(sets) => exists i :: 0 <= i < |sets| && CoversPrefix(sets[i], p)
  }

  /** prefixSetContainsPrefixSpace */
  predicate CoversPrefix(s: PrefixSet, p: Prefix)
    decreases s, 1
  {
    p.Net? &&
    match s
    case AnySet => true
    case ExactSet(q) => q.Net? && Contains(q, First(p)) && p.bits >= q.bits
    case RangeSet(_, _, _) => ContainsPrefix(s, p)
    case UnionSet(_) => ContainsPrefix(s, p)
  }

  predicate ContainsAddr(s: PrefixSet, a: Addr) {
    match s
    case AnySet => true
    case ExactSet(q) => Contains(q, a)
    case RangeSet(base, _, _) => Contains(base, a)
    case UnionSet(sets) => exists i :: 0 <= i < |sets| && ContainsAddr(sets[i], a)
  }

  /** prefixAddressSpaceOverlaps */
  predicate SpaceMeets(s: PrefixSet, p: Prefix) {
    p.Net? &&
    match s
    case AnySet => true
    case ExactSet(q) => Overlaps(q, p)
    case RangeSet(base, _, _) => Overlaps(base, p)
    case UnionSet(sets) => exists i :: 0 <= i < |sets| && SpaceMeets(sets[i], p)
  }

  predicate AddressSpaceOverlaps(a: PrefixSet, b: PrefixSet) {
    match a
    case AnySet => true
    case ExactSet(p) => SpaceMeets(b, p)
    case RangeSet(base, _, _) => SpaceMeets(b, base)
    case UnionSet(sets) => exists i :: 0 <= i < |sets| && AddressSpaceOverlaps(sets[i], b)
  }

  predicate HasAny(s: PrefixSet) {
    s.AnySet? || (s.UnionSet? && exists i :: 0 <= i < |s.sets| && HasAny(s.sets[i]))
  }

  lemma {:induction false} SpaceMeetsShares(s: PrefixSet, p: Prefix)
    ensures SpaceMeets(s, p) <==> exists a :: Contains(p, a) && ContainsAddr(s, a)
  {
    match s
    case AnySet => assert p.Net? ==> Contains(p, First(p));
    case ExactSet(q) => OverlapsShares(q, p);
    case RangeSet(base, _, _) => OverlapsShares(base, p);
    case UnionSet(sets) =>
      forall i | 0 <= i < |sets|
        ensures SpaceMeets(sets[i], p) <==> exists a :: Contains(p, a) && ContainsAddr(sets[i], a)
      {
        SpaceMeetsShares(sets[i], p);
      }
      if a :| Contains(p, a) && ContainsAddr(s, a) {
        var i :| 0 <= i < |sets| && ContainsAddr(sets[i], a);
        assert SpaceMeets(sets[i], p);
      }
  }

  /**
   Two sets overlap exactly when they share an address, except that `any` as the first one,
   alone or inside a union, overlaps even a set without addresses.
   */
  lemma {:induction false} OverlapsExactly(s: PrefixSet, t: PrefixSet)
    ensures AddressSpaceOverlaps(s, t) <==> HasAny(s) || exists a :: ContainsAddr(s, a) && ContainsAddr(t, a)
  {
    match s
    case AnySet =>
    case ExactSet(p) => SpaceMeetsShares(t, p);
    case RangeSet(base, _, _) => SpaceMeetsShares(t, base);
    case UnionSet(sets) =>
      forall i | 0 <= i < |sets|
        ensures AddressSpaceOverlaps(sets[i], t) <==>
            HasAny(sets[i]) || exists a :: ContainsAddr(sets[i], a) && ContainsAddr(t, a)
      {
        OverlapsExactly(sets[i], t);
      }
      if AddressSpaceOverlaps(s, t) && !HasAny(s) {
        var i :| 0 <= i < |sets| && AddressSpaceOverlaps(sets[i], t);
        assert !HasAny(sets[i]);
        var a :| ContainsAddr(sets[i], a) && ContainsAddr(t, a);
        assert ContainsAddr(s, a);
      }
      if HasAny(s) {
        var i :| 0 <= i < |sets| && HasAny(sets[i]);
        assert AddressSpaceOverlaps(sets[i], t);
      }
      if a :| ContainsAddr(s, a) && ContainsAddr(t, a) {
        var i :| 0 <= i < |sets| && ContainsAddr(sets[i], a);
        assert AddressSpaceOverlaps(sets[i], t);
      }
  }

  /** The exception is real: `any` overlaps the empty union, not the other way round. */
  lemma AnyOverlapsNothing()
    ensures AddressSpaceOverlaps(AnySet, UnionSet([])) && !AddressSpaceOverlaps(UnionSet([]), AnySet)
    ensures !exists a :: ContainsAddr(UnionSet([]), a)
  {
  }

  // ---------- prefix-list entries ----------

  /** The text of a prefix-list rule: the word `any`, a prefix, or neither. */
  datatype RulePrefix = AnyWord | Parsed(prefix: Prefix) | Unparsable

  datatype SetError = AnyWithBounds | BadPrefix | BadRange

  function NewPrefixSet(text: RulePrefix, ge: int, le: int): Result<PrefixSet, SetError>
    requires text.Parsed? ==> text.prefix.Net?
  {
    match text
    case AnyWord => if ge != 0 || le != 0 then Err(AnyWithBounds) else Ok(AnySet)
    case Unparsable => Err(BadPrefix)
    case Parsed(base) =>
      if ge == 0 && le == 0 then Ok(ExactSet(base))
      else
        var minLen := if ge != 0 then ge else base.bits;
        var maxLen := if le != 0 then le else base.family.Width();
        if minLen < base.bits || maxLen > base.family.Width() || minLen > maxLen then Err(BadRange)
        else Ok(RangeSet(base, minLen, maxLen))
  }

  /** What NewPrefixSet can return. */
  predicate RuleSet(s: PrefixSet) {
    match s
    case AnySet => true
    case ExactSet(p) => p.Net?
    case RangeSet(base, minLen, maxLen) => base.Net? && base.bits <= minLen <= maxLen <= base.family.Width()
    case UnionSet(_) => false
  }

  /**
   A rule is accepted exactly when `any` stands without bounds, or the prefix is readable, each bound
   given is a length of its family that is not shorter than the prefix, and ge is at most le.
   */
  lemma AcceptedExactly(text: RulePrefix, ge: int, le: int)
    requires text.Parsed? ==> text.prefix.Net?
    ensures NewPrefixSet(text, ge, le).Ok? <==>
      match text
      case AnyWord => ge == 0 && le == 0
      case Unparsable => false
      case Parsed(base) =>
        && (ge != 0 ==> base.bits <= ge <= base.family.Width())
        && (le != 0 ==> base.bits <= le <= base.family.Width())
        && (ge != 0 && le != 0 ==> ge <= le)
    ensures NewPrefixSet(text, ge, le).Err? ==>
      match text
      case AnyWord => NewPrefixSet(text, ge, le).error == AnyWithBounds
      case Unparsable => NewPrefixSet(text, ge, le).error == BadPrefix
      case Parsed(_) => NewPrefixSet(text, ge, le).error == BadRange
  {
  }

  /** An accepted rule matches what it says: the prefix itself, or longer ones within ge and le. */
  lemma NewPrefixSetMeans(text: RulePrefix, ge: int, le: int, p: Prefix)
    requires text.Parsed? ==> text.prefix.Net?
    requires NewPrefixSet(text, ge, le).Ok? && p.Net?
    ensures RuleSet(NewPrefixSet(text, ge, le).value)
    ensures ContainsPrefix(NewPrefixSet(text, ge, le).value, p) <==>
      match text
      case AnyWord => true
      case Parsed(base) =>
        && Covers(base, p)
        && (if ge == 0 && le == 0 then p.bits == base.bits
          else (ge != 0 ==> ge <= p.bits) && (le != 0 ==> p.bits <= le))
  {
    match text
    case AnyWord =>
    case Parsed(base) =>
      if base.family == p.family {
        if base.bits <= p.bits {
          NestOrApart(base, p);
          if base.bits == p.bits && Covers(base, p) {
            LengthDetermines(base, p, First(p));
          }
        } else {
          NestOrApart(p, base);
          Pow2Grows(p.family.Width() - base.bits, p.family.Width() - p.bits);
          Shorter(base, p);
        }
      }
  }

  lemma Shorter(p: Prefix, q: Prefix)
    requires p.Net? && q.Net? && p.family == q.family && q.bits < p.bits
    ensures !Covers(p, q)
  {
    Pow2Grows(p.family.Width() - p.bits, p.family.Width() - q.bits);
  }

  // ---------- do two rules match a common prefix? ----------

  function Max(a: int, b: int): int {
    if a >= b then a else b
  }

  function Min(a: int, b: int): int {
    if a <= b then a else b
  }

  /** prefixRangeSetsOverlap */
  predicate RangesOverlap(a: PrefixSet, b: PrefixSet)
    requires a.RangeSet? && b.RangeSet?
  {
    && a.base.Net? && b.base.Net? && a.base.family == b.base.family
    && Overlaps(a.base, b.base)
    && Max(a.minLen, Max(b.minLen, Max(a.base.bits, b.base.bits))) <= Min(a.maxLen, b.maxLen)
  }

  /** NLRIPredicateOverlaps with a range as its second set. */
  predicate OverlapsRange(s: PrefixSet, range: PrefixSet)
    requires range.RangeSet?
    decreases s
  {
    match s
    case AnySet => true
    case ExactSet(p) => ContainsPrefix(range, p)
    case RangeSet(_, _, _) => RangesOverlap(s, range)
    case UnionSet(sets) => exists i :: 0 <= i < |sets| && OverlapsRange(sets[i], range)
  }

  predicate NLRIPredicateOverlaps(a: PrefixSet, b: PrefixSet)
    decreases a
  {
    match a
    case AnySet => true
    case ExactSet(p) => ContainsPrefix(b, p)
    case RangeSet(_, _, _) =>
      (match b
       case AnySet => true
       case ExactSet(q) => ContainsPrefix(a, q)
       case RangeSet(_, _, _) => RangesOverlap(a, b)
       case UnionSet(_) => OverlapsRange(b, a))
    case UnionSet(sets) => exists i :: 0 <= i < |sets| && NLRIPredicateOverlaps(sets[i], b)
  }

  /** Ranges overlap when a prefix of the length both admit sits at the start of the longer base. */
  lemma RangesShare(a: PrefixSet, b: PrefixSet)
    requires a.RangeSet? && b.RangeSet? && RuleSet(a) && RuleSet(b) && a.base.bits <= b.base.bits
    ensures RangesOverlap(a, b) <==> exists p: Prefix :: ContainsPrefix(a, p) && ContainsPrefix(b, p)
  {
    if RangesOverlap(a, b) {
      var p := Narrower(b.base, Max(a.minLen, b.minLen));
      NestOrApart(a.base, b.base);
      assert ContainsPrefix(a, p) && ContainsPrefix(b, p);
    }
    if p: Prefix :| ContainsPrefix(a, p) && ContainsPrefix(b, p) {
      OverlapsShares(a.base, b.base);
      assert Contains(a.base, First(p)) && Contains(b.base, First(p));
    }
  }

  /** A rule's own prefix, at the shortest length it admits, matches it. */
  lemma OwnPrefix(s: PrefixSet) returns (p: Prefix)
    requires RuleSet(s)
    ensures p.Net? && ContainsPrefix(s, p)
  {
    match s
    case AnySet => p := AllOfIPv4();
    case ExactSet(q) => p := q;
    case RangeSet(base, minLen, _) => p := Narrower(base, minLen);
  }

  lemma AllOfIPv4() returns (p: Prefix)
    ensures p == Net(V4, 0, 0)
  {
    p := Net(V4, 0, 0);
  }

  /** Between two rules, the answer is yes exactly when some prefix matches both. */
  lemma OverlapMeansCommonPrefix(a: PrefixSet, b: PrefixSet)
    requires RuleSet(a) && RuleSet(b)
    ensures NLRIPredicateOverlaps(a, b) <==> exists p: Prefix :: p.Net? && ContainsPrefix(a, p) && ContainsPrefix(b, p)
  {
    match a
    case AnySet => var p := OwnPrefix(b);
    case ExactSet(q) =>
    case RangeSet(_, _, _) =>
      match b
      case AnySet => var p := OwnPrefix(a);
      case ExactSet(q) =>
      case RangeSet(_, _, _) =>
        if a.base.bits <= b.base.bits {
          RangesShare(a, b);
        } else {
          RangesShare(b, a);
        }
  }

  /**
   With a union the answer can depend on the order of the arguments: a union asks its members
   for their space when it comes second, and for their own matches when it comes first.
   */
  lemma UnionOverlapDependsOnOrder(wide: Prefix, narrow: Prefix)
    requires Covers(wide, narrow) && wide != narrow
    ensures NLRIPredicateOverlaps(ExactSet(narrow), UnionSet([ExactSet(wide)]))
    ensures !NLRIPredicateOverlaps(UnionSet([ExactSet(wide)]), ExactSet(narrow))
  {
    if narrow.bits < wide.bits {
      Shorter(wide, narrow);
    }
    assert CoversPrefix([ExactSet(wide)][0], narrow);
  }

  // ---------- unions, and the order of the arguments ----------

  /** x is one of the rules s is put together from. */
  predicate RuleOf(x: PrefixSet, s: PrefixSet)
    decreases s
  {
    if s.UnionSet? then exists i :: 0 <= i < |s.sets| && RuleOf(x, s.sets[i]) else x == s
  }

  ghost predicate FromRules(s: PrefixSet) {
    forall x :: RuleOf(x, s) ==> RuleSet(x)
  }

  /** Some rule of a and some rule of b match a common prefix. */
  ghost predicate CommonPrefix(a: PrefixSet, b: PrefixSet) {
    exists x, y :: RuleOf(x, a) && RuleOf(y, b) && NLRIPredicateOverlaps(x, y)
  }

  /** b is a union with a single-prefix rule around a single-prefix rule of a. */
  ghost predicate Surrounds(b: PrefixSet, a: PrefixSet) {
    b.UnionSet? && exists p: Prefix, q: Prefix :: RuleOf(ExactSet(p), a) && RuleOf(ExactSet(q), b) && Covers(q, p)
  }

  lemma {:induction false} FirstByRules(a: PrefixSet, b: PrefixSet)
    ensures NLRIPredicateOverlaps(a, b) <==> exists x :: RuleOf(x, a) && NLRIPredicateOverlaps(x, b)
    decreases a
  {
    if a.UnionSet? {
      forall i | 0 <= i < |a.sets|
        ensures NLRIPredicateOverlaps(a.sets[i], b) <==> exists x :: RuleOf(x, a.sets[i]) && NLRIPredicateOverlaps(x, b)
      {
        FirstByRules(a.sets[i], b);
      }
      if NLRIPredicateOverlaps(a, b) {
        var i :| 0 <= i < |a.sets| && NLRIPredicateOverlaps(a.sets[i], b);
        var x :| RuleOf(x, a.sets[i]) && NLRIPredicateOverlaps(x, b);
        assert RuleOf(x, a);
      }
      if x :| RuleOf(x, a) && NLRIPredicateOverlaps(x, b) {
        var i :| 0 <= i < |a.sets| && RuleOf(x, a.sets[i]);
        assert NLRIPredicateOverlaps(a.sets[i], b);
      }
    } else {
      assert RuleOf(a, a);
    }
  }

  lemma {:induction false} SpaceByRules(s: PrefixSet, p: Prefix)
    ensures CoversPrefix(s, p) <==> exists y :: RuleOf(y, s) && CoversPrefix(y, p)
    decreases s
  {
    if s.UnionSet? {
      forall i | 0 <= i < |s.sets|
        ensures CoversPrefix(s.sets[i], p) <==> exists y :: RuleOf(y, s.sets[i]) && CoversPrefix(y, p)
      {
        SpaceByRules(s.sets[i], p);
      }
      if CoversPrefix(s, p) {
        assert ContainsPrefix(s, p);
        var i :| 0 <= i < |s.sets| && CoversPrefix(s.sets[i], p);
        var y :| RuleOf(y, s.sets[i]) && CoversPrefix(y, p);
        assert RuleOf(y, s);
      }
      if y :| RuleOf(y, s) && CoversPrefix(y, p) {
        var i :| 0 <= i < |s.sets| && RuleOf(y, s.sets[i]);
        assert CoversPrefix(s.sets[i], p);
      }
    } else {
      assert RuleOf(s, s);
    }
  }

  lemma {:induction false} RangeByRules(s: PrefixSet, range: PrefixSet)
    requires range.RangeSet?
    ensures OverlapsRange(s, range) <==> exists y :: RuleOf(y, s) && OverlapsRange(y, range)
    decreases s
  {
    if s.UnionSet? {
      forall i | 0 <= i < |s.sets|
        ensures OverlapsRange(s.sets[i], range) <==> exists y :: RuleOf(y, s.sets[i]) && OverlapsRange(y, range)
      {
        RangeByRules(s.sets[i], range);
      }
      if OverlapsRange(s, range) {
        var i :| 0 <= i < |s.sets| && OverlapsRange(s.sets[i], range);
        var y :| RuleOf(y, s.sets[i]) && OverlapsRange(y, range);
        assert RuleOf(y, s);
      }
      if y :| RuleOf(y, s) && OverlapsRange(y, range) {
        var i :| 0 <= i < |s.sets| && RuleOf(y, s.sets[i]);
        assert OverlapsRange(s.sets[i], range);
      }
    } else {
      assert RuleOf(s, s);
    }
  }

  /** What a union that comes second makes of a rule. */
  lemma RuleMeetsUnion(x: PrefixSet, b: PrefixSet)
    requires RuleSet(x) && b.UnionSet? && FromRules(b)
    ensures NLRIPredicateOverlaps(x, b) <==>
      || x.AnySet?
      || (exists y :: RuleOf(y, b) && NLRIPredicateOverlaps(x, y))
      || (x.ExactSet? && exists q: Prefix :: RuleOf(ExactSet(q), b) && Covers(q, x.prefix))
  {
    match x
    case AnySet =>
    case ExactSet(p) =>
      SpaceByRules(b, p);
      forall y | RuleOf(y, b)
        ensures CoversPrefix(y, p) <==> NLRIPredicateOverlaps(x, y) || (y.ExactSet? && Covers(y.prefix, p))
      {
        assert RuleSet(y);
        if y.ExactSet? {
          CoversByLength(y.prefix, p);
        }
      }
    case RangeSet(_, _, _) =>
      RangeByRules(b, x);
      forall y | RuleOf(y, b)
        ensures OverlapsRange(y, x) <==> NLRIPredicateOverlaps(x, y)
      {
        assert RuleSet(y);
        OverlapMeansCommonPrefix(x, y);
        OverlapMeansCommonPrefix(y, x);
      }
  }

  lemma CoversByLength(q: Prefix, p: Prefix)
    requires p.Net? && q.Net?
    ensures Covers(q, p) <==> Contains(q, First(p)) && p.bits >= q.bits
  {
    if p.family == q.family {
      if q.bits <= p.bits {
        NestOrApart(q, p);
      } else {
        Shorter(q, p);
      }
    }
  }

  /** What any set that comes second makes of a rule. */
  lemma RuleMeets(x: PrefixSet, b: PrefixSet)
    requires RuleSet(x) && FromRules(b)
    ensures NLRIPredicateOverlaps(x, b) <==>
      || x.AnySet?
      || (exists y :: RuleOf(y, b) && NLRIPredicateOverlaps(x, y))
      || (b.UnionSet? && x.ExactSet? && exists q: Prefix :: RuleOf(ExactSet(q), b) && Covers(q, x.prefix))
  {
    if b.UnionSet? {
      RuleMeetsUnion(x, b);
    } else {
      hide NLRIPredicateOverlaps, Covers;
      assert forall y :: RuleOf(y, b) <==> y == b;
    }
  }

  /**
   For all sets put together from rules: they overlap when they match a common prefix. Beyond
   that, `any` in the first one overlaps even a union without rules, and a union that comes
   second is asked for its space, so it also overlaps the prefixes inside its own.
   */
  lemma OverlapMeans(a: PrefixSet, b: PrefixSet)
    requires FromRules(a) && FromRules(b)
    ensures NLRIPredicateOverlaps(a, b) <==> CommonPrefix(a, b) || HasAny(a) || Surrounds(b, a)
  {
    FirstByRules(a, b);
    AnyRule(a);
    hide NLRIPredicateOverlaps, RuleSet, Covers, RuleOf, HasAny;
    forall x | RuleOf(x, a)
      ensures NLRIPredicateOverlaps(x, b) <==>
        || x.AnySet? || (exists y :: RuleOf(y, b) && NLRIPredicateOverlaps(x, y))
        || (b.UnionSet? && x.ExactSet? && exists q: Prefix :: RuleOf(ExactSet(q), b) && Covers(q, x.prefix))
    {
      RuleMeets(x, b);
    }
    if x, y :| RuleOf(x, a) && RuleOf(y, b) && NLRIPredicateOverlaps(x, y) {
      assert NLRIPredicateOverlaps(x, b);
    }
    if HasAny(a) {
      assert NLRIPredicateOverlaps(AnySet, b);
    }
    if Surrounds(b, a) {
      var p: Prefix, q: Prefix :| RuleOf(ExactSet(p), a) && RuleOf(ExactSet(q), b) && Covers(q, p);
      assert NLRIPredicateOverlaps(ExactSet(p), b);
    }
  }

  lemma {:induction false} AnyRule(s: PrefixSet)
    ensures HasAny(s) <==> RuleOf(AnySet, s)
  {
    if s.UnionSet? {
      forall i | 0 <= i < |s.sets|
        ensures HasAny(s.sets[i]) <==> RuleOf(AnySet, s.sets[i])
      {
        AnyRule(s.sets[i]);
      }
    }
  }

  lemma CommonEitherWay(a: PrefixSet, b: PrefixSet)
    requires FromRules(a) && FromRules(b)
    ensures CommonPrefix(a, b) ==> CommonPrefix(b, a)
  {
    if x, y :| RuleOf(x, a) && RuleOf(y, b) && NLRIPredicateOverlaps(x, y) {
      OverlapMeansCommonPrefix(x, y);
      OverlapMeansCommonPrefix(y, x);
    }
  }

  /**
   The order of the arguments matters exactly when no prefix is matched by both and one of the two
   extras applies one way only.
   */
  lemma OverlapOrderExactly(a: PrefixSet, b: PrefixSet)
    requires FromRules(a) && FromRules(b)
    ensures NLRIPredicateOverlaps(a, b) != NLRIPredicateOverlaps(b, a) <==>
      !CommonPrefix(a, b) && (HasAny(a) || Surrounds(b, a)) != (HasAny(b) || Surrounds(a, b))
  {
    OverlapMeans(a, b);
    OverlapMeans(b, a);
    CommonEitherWay(a, b);
    CommonEitherWay(b, a);
  }

  /**
   Between one rule and a union: the order matters exactly for `any` and a union without rules,
   and for a single prefix inside a single-prefix rule of the union that no rule of it matches.
   */
  lemma RuleAndUnionOrderExactly(a: PrefixSet, b: PrefixSet)
    requires RuleSet(a) && b.UnionSet? && FromRules(b)
    ensures NLRIPredicateOverlaps(a, b) != NLRIPredicateOverlaps(b, a) <==>
      || (a.AnySet? && !exists y :: RuleOf(y, b))
      || (a.ExactSet? && (exists q: Prefix :: RuleOf(ExactSet(q), b) && Covers(q, a.prefix))
          && !exists y :: RuleOf(y, b) && ContainsPrefix(y, a.prefix))
  {
    OverlapOrderExactly(a, b);
    AnyRule(b);
    forall y | RuleOf(y, b)
      ensures NLRIPredicateOverlaps(a, y) <==> NLRIPredicateOverlaps(y, a)
      ensures a.AnySet? || y.AnySet? ==> NLRIPredicateOverlaps(a, y)
      ensures a.ExactSet? ==> (NLRIPredicateOverlaps(a, y) <==> ContainsPrefix(y, a.prefix))
    {
      assert RuleSet(y);
      OverlapMeansCommonPrefix(a, y);
      OverlapMeansCommonPrefix(y, a);
    }
    OnlyRule(a, b);
    hide RuleSet, Covers, NLRIPredicateOverlaps, ContainsPrefix;
  }

  /** A rule is its own only rule. */
  lemma OnlyRule(a: PrefixSet, b: PrefixSet)
    requires RuleSet(a) && b.UnionSet?
    ensures HasAny(a) <==> a.AnySet?
    ensures CommonPrefix(a, b) <==> exists y :: RuleOf(y, b) && NLRIPredicateOverlaps(a, y)
    ensures Surrounds(b, a) <==> a.ExactSet? && exists q: Prefix :: RuleOf(ExactSet(q), b) && Covers(q, a.prefix)
    ensures !Surrounds(a, b)
  {
    hide Covers, NLRIPredicateOverlaps;
    assert forall x :: RuleOf(x, a) <==> x == a;
    if y :| RuleOf(y, b) && NLRIPredicateOverlaps(a, y) {
      assert RuleOf(a, a);
    }
    if CommonPrefix(a, b) {
      var x, y :| RuleOf(x, a) && RuleOf(y, b) && NLRIPredicateOverlaps(x, y);
      assert x == a && exists y :: RuleOf(y, b) && NLRIPredicateOverlaps(a, y);
    }
  }
}
