/** The text by which prefix predicates are told apart, and the intervals it stands for. */
module SetKeys {
  import opened Blocks
  import opened Prefixes
  import opened PrefixText
  import opened Wrappers
  import Text

  /** strconv.Itoa */
  function IntText(n: int): string {
    if n < 0 then "-" + Text.Decimal(-n) else Text.Decimal(n)
  }

  function Bounds(base: Prefix, minLen: int, maxLen: int): string {
    (if minLen != BitsOf(base) then " ge " + IntText(minLen) else "")
    + if maxLen != BitLen(base) then " le " + IntText(maxLen) else ""
  }

  function LeafText(s: PrefixSet): string
    requires !s.UnionSet?
  {
    match s
    case AnySet => "any"
    case ExactSet(p) => PrefixString(p)
    case RangeSet(base, minLen, maxLen) => PrefixString(base) + Bounds(base, minLen, maxLen)
  }

  /** The String method of prefix sets. */
  function SetString(s: PrefixSet): string
    decreases s, 1
  {
    if s.UnionSet? then Text.Join(SetStrings(s.sets), ",") else LeafText(s)
  }

  function SetStrings(sets: seq<PrefixSet>): (r: seq<string>)
    ensures |r| == |sets|
    decreases sets, 0
  {
    if sets == [] then [] else [SetString(sets[0])] + SetStrings(sets[1..])
  }

  predicate Space(c: char) {
    c == ' ' || '\t' <= c <= '\r'
  }

  /** strings.TrimSpace */
  function TrimSpace(s: string): string {
    if s != "" && Space(s[0]) then TrimSpace(s[1..])
    else if s != "" && Space(s[|s| - 1]) then TrimSpace(s[..|s| - 1])
    else s
  }

  // ---------- intervals ----------

  datatype Interval = Interval(lo: nat, hi: nat)

  datatype Span = NoSpan | Covered(interval: Interval) | NotIPv4(prefix: Prefix)

  function PrefixSpan(p: Prefix): Span {
    if p.Zero? then NoSpan
    else if p.family.V6? then NotIPv4(p)
    else Covered(Interval(p.addr, p.addr + (Size(p) - 1)))
  }

  function LeafSpan(s: PrefixSet): Span
    requires !s.UnionSet?
  {
    match s
    case AnySet => Covered(Interval(0, LIMIT - 1))
    case ExactSet(p) => PrefixSpan(p)
    case RangeSet(base, _, _) => PrefixSpan(base)
  }

  /** prefixSetIPv4Intervals */
  function Intervals(s: PrefixSet): Result<seq<Interval>, Prefix>
    decreases s, 1
  {
    if s.UnionSet? then UnionIntervals(s.sets)
    else
      match LeafSpan(s)
      case NoSpan => Ok([])
      case Covered(i) => Ok([i])
      case NotIPv4(p) => Err(p)
  }

  function UnionIntervals(sets: seq<PrefixSet>): Result<seq<Interval>, Prefix>
    decreases sets, 0
  {
    if sets == [] then Ok([])
    else
      var first := Intervals(sets[0]);
      if first.Err? then first
      else
        var rest := UnionIntervals(sets[1..]);
        if rest.Err? then rest else Ok(first.value + rest.value)
  }

  /** The set is written with a prefix that is not of IPv4. */
  predicate BeyondIPv4(s: PrefixSet) {
    match s
    case AnySet => false
    case ExactSet(p) => p.Net? && p.family == V6
    case RangeSet(base, _, _) => base.Net? && base.family == V6
    case UnionSet(sets) => exists i :: 0 <= i < |sets| && BeyondIPv4(sets[i])
  }

  /** A set has no intervals exactly when it is written with such a prefix. */
  lemma {:induction false} IntervalsFailExactly(s: PrefixSet)
    ensures Intervals(s).Err? <==> BeyondIPv4(s)
    decreases s, 1
  {
    if s.UnionSet? {
      UnionFailsExactly(s.sets);
    }
  }

  lemma {:induction false} UnionFailsExactly(sets: seq<PrefixSet>)
    ensures UnionIntervals(sets).Err? <==> exists i :: 0 <= i < |sets| && BeyondIPv4(sets[i])
    decreases sets, 0
  {
    if sets != [] {
      IntervalsFailExactly(sets[0]);
      UnionFailsExactly(sets[1..]);
      if i :| 0 <= i < |sets| && BeyondIPv4(sets[i]) {
        assert i > 0 ==> sets[1..][i - 1] == sets[i];
      }
      if i :| 0 <= i < |sets[1..]| && BeyondIPv4(sets[1..][i]) {
        assert sets[i + 1] == sets[1..][i];
      }
    }
  }

  // ---------- a set as the list of its leaves ----------

  /** An empty union is written like a set without a prefix, which has no interval either. */
  function Leaves(s: PrefixSet): (r: seq<PrefixSet>)
    ensures r != [] && forall i :: 0 <= i < |r| ==> !r[i].UnionSet?
    decreases s, 1
  {
    if !s.UnionSet? then [s] else if s.sets == [] then [ExactSet(Zero)] else LeavesOf(s.sets)
  }

  function LeavesOf(sets: seq<PrefixSet>): (r: seq<PrefixSet>)
    ensures (sets != [] ==> r != []) && forall i :: 0 <= i < |r| ==> !r[i].UnionSet?
    decreases sets, 0
  {
    if sets == [] then [] else Leaves(sets[0]) + LeavesOf(sets[1..])
  }

  function LeafTexts(ls: seq<PrefixSet>): (r: seq<string>)
    requires forall i :: 0 <= i < |ls| ==> !ls[i].UnionSet?
    ensures |r| == |ls| && forall i :: 0 <= i < |ls| ==> r[i] == LeafText(ls[i])
  {
    seq(|ls|, i requires 0 <= i < |ls| => LeafText(ls[i]))
  }

  function LeafSpans(ls: seq<PrefixSet>): (r: seq<Span>)
    requires forall i :: 0 <= i < |ls| ==> !ls[i].UnionSet?
    ensures |r| == |ls| && forall i :: 0 <= i < |ls| ==> r[i] == LeafSpan(ls[i])
  {
    seq(|ls|, i requires 0 <= i < |ls| => LeafSpan(ls[i]))
  }

  function Collect(spans: seq<Span>): Result<seq<Interval>, Prefix> {
    if spans == [] then Ok([])
    else
      match spans[0]
      case NotIPv4(p) => Err(p)
      case NoSpan => Collect(spans[1..])
      case Covered(i) =>
        var rest := Collect(spans[1..]);
        if rest.Err? then rest else Ok([i] + rest.value)
  }

  lemma {:induction false} CollectConcat(a: seq<Span>, b: seq<Span>)
    ensures Collect(a + b) ==
      if Collect(a).Err? then Collect(a) else if Collect(b).Err? then Collect(b)
        else Ok(Collect(a).value + Collect(b).value)
  {
    if a == [] {
      assert a + b == b;
      assert Collect(b).Ok? ==> [] + Collect(b).value == Collect(b).value;
    } else {
      assert (a + b)[1..] == a[1..] + b;
      CollectConcat(a[1..], b);
      if a[0].Covered? && Collect(a[1..]).Ok? && Collect(b).Ok? {
        var first, rest := [a[0].interval], Collect(a[1..]).value;
        assert first + (rest + Collect(b).value) == first + rest + Collect(b).value;
      }
    }
  }

  lemma {:induction false} IntervalsOfLeaves(s: PrefixSet)
    ensures Intervals(s) == Collect(LeafSpans(Leaves(s)))
    decreases s, 1
  {
    if s.UnionSet? {
      if s.sets == [] {
        assert LeafSpans(Leaves(s)) == [NoSpan];
        assert [NoSpan][1..] == [];
      } else {
        UnionOfLeaves(s.sets);
      }
    } else {
      assert LeafSpans(Leaves(s)) == [LeafSpan(s)];
      assert [LeafSpan(s)][1..] == [];
      if LeafSpan(s).Covered? {
        assert [LeafSpan(s).interval] + [] == [LeafSpan(s).interval];
      }
    }
  }

  lemma SpansConcat(ls: seq<PrefixSet>, ms: seq<PrefixSet>)
    requires forall i :: 0 <= i < |ls| ==> !ls[i].UnionSet?
    requires forall i :: 0 <= i < |ms| ==> !ms[i].UnionSet?
    ensures forall i :: 0 <= i < |ls + ms| ==> !(ls + ms)[i].UnionSet?
    ensures LeafSpans(ls + ms) == LeafSpans(ls) + LeafSpans(ms)
  {
    hide LeafSpan;
  }

  lemma {:induction false} UnionOfLeaves(sets: seq<PrefixSet>)
    ensures UnionIntervals(sets) == Collect(LeafSpans(LeavesOf(sets)))
    decreases sets, 0
  {
    if sets == [] {
      assert LeafSpans(LeavesOf(sets)) == [];
    } else {
      hide LeafSpan, Leaves, Collect, Intervals;
      IntervalsOfLeaves(sets[0]);
      UnionOfLeaves(sets[1..]);
      SpansConcat(Leaves(sets[0]), LeavesOf(sets[1..]));
      CollectConcat(LeafSpans(Leaves(sets[0])), LeafSpans(LeavesOf(sets[1..])));
    }
  }

  lemma {:induction false} JoinConcat(a: seq<string>, b: seq<string>, sep: string)
    requires a != [] && b != []
    ensures Text.Join(a + b, sep) == Text.Join(a, sep) + sep + Text.Join(b, sep)
  {
    assert (a + b)[1..] == a[1..] + b;
    if |a| == 1 {
      assert a[1..] + b == b;
    } else {
      JoinConcat(a[1..], b, sep);
      Text.Assoc(a[0] + sep, Text.Join(a[1..], sep) + sep, Text.Join(b, sep));
      Text.Assoc(a[0] + sep, Text.Join(a[1..], sep), sep);
    }
  }

  lemma {:induction false} StringOfLeaves(s: PrefixSet)
    ensures SetString(s) == Text.Join(LeafTexts(Leaves(s)), ",")
    decreases s, 1
  {
    if s.UnionSet? {
      if s.sets != [] {
        StringsOfLeaves(s.sets);
      } else {
        assert LeafTexts(Leaves(s)) == [""];
      }
    } else {
      assert LeafTexts(Leaves(s)) == [LeafText(s)];
    }
  }

  lemma {:induction false} StringsOfLeaves(sets: seq<PrefixSet>)
    requires sets != []
    ensures Text.Join(SetStrings(sets), ",") == Text.Join(LeafTexts(LeavesOf(sets)), ",")
    decreases sets, 0
  {
    hide LeafText, Leaves;
    StringOfLeaves(sets[0]);
    var first, rest := LeafTexts(Leaves(sets[0])), LeafTexts(LeavesOf(sets[1..]));
    assert LeafTexts(LeavesOf(sets)) == first + rest;
    assert SetStrings(sets)[1..] == SetStrings(sets[1..]);
    if |sets| > 1 {
      StringsOfLeaves(sets[1..]);
      JoinConcat(first, rest, ",");
    } else {
      assert first + rest == first;
    }
  }

  // ---------- equal texts stand for equal intervals ----------

  lemma SlashOrEmpty(p: Prefix)
    ensures PrefixString(p) != "any"
  {
    if p.Net? {
      SlashWithin(p);
    }
  }

  lemma BoundsStart(base: Prefix, minLen: int, maxLen: int)
    ensures Bounds(base, minLen, maxLen) == "" || Bounds(base, minLen, maxLen)[0] == ' '
  {
  }

  /** The text up to the first blank, and what follows it. */
  function HeadText(s: PrefixSet): string
    requires !s.UnionSet?
  {
    match s
    case AnySet => "any"
    case ExactSet(p) => PrefixString(p)
    case RangeSet(base, _, _) => PrefixString(base)
  }

  function TailText(s: PrefixSet): string
    requires !s.UnionSet?
  {
    if s.RangeSet? then Bounds(s.base, s.minLen, s.maxLen) else ""
  }

  lemma LeafTextSplits(s: PrefixSet)
    requires !s.UnionSet?
    ensures LeafText(s) == HeadText(s) + TailText(s)
    ensures ' ' !in HeadText(s) && (TailText(s) == "" || TailText(s)[0] == ' ')
  {
    match s
    case AnySet => assert "any" + "" == "any";
    case ExactSet(p) =>
      PrefixStringChars(p, ' ');
      assert PrefixString(p) + "" == PrefixString(p);
    case RangeSet(base, minLen, maxLen) =>
      PrefixStringChars(base, ' ');
      BoundsStart(base, minLen, maxLen);
  }

  lemma TextDeterminesSpan(s: PrefixSet, t: PrefixSet)
    requires !s.UnionSet? && !t.UnionSet? && LeafText(s) == LeafText(t)
    ensures LeafSpan(s) == LeafSpan(t)
  {
    LeafTextSplits(s);
    LeafTextSplits(t);
    Text.SplitAtSeparator(' ', HeadText(s), HeadText(t), TailText(s), TailText(t));
    var p := if s.ExactSet? then s.prefix else if s.RangeSet? then s.base else Zero;
    var q := if t.ExactSet? then t.prefix else if t.RangeSet? then t.base else Zero;
    SlashOrEmpty(p);
    SlashOrEmpty(q);
    hide PrefixString, PrefixSpan, LeafText;
    if !s.AnySet? && !t.AnySet? {
      PrefixStringInjective(p, q);
    }
  }

  lemma IntTextChars(n: int)
    ensures ',' !in IntText(n) && IntText(n) != "" && !Space(IntText(n)[|IntText(n)| - 1])
  {
    var m := if n < 0 then -n else n;
    DecimalChars(m, ',');
    Text.DecimalDigits(m);
    var d := Text.Decimal(m);
    assert ("-" + d)[|"-" + d| - 1] == d[|d| - 1];
  }

  predicate NoTrailingSpace(s: string) {
    s == "" || !Space(s[|s| - 1])
  }

  lemma AppendTrailing(s: string, t: string)
    requires t != "" ==> NoTrailingSpace(t)
    requires t == "" ==> NoTrailingSpace(s)
    ensures NoTrailingSpace(s + t)
  {
    assert t == "" ==> s + t == s;
    assert t != "" ==> (s + t)[|s + t| - 1] == t[|t| - 1];
  }

  lemma BoundsChars(base: Prefix, minLen: int, maxLen: int)
    ensures ',' !in Bounds(base, minLen, maxLen) && NoTrailingSpace(Bounds(base, minLen, maxLen))
  {
    IntTextChars(minLen);
    IntTextChars(maxLen);
    var a := if minLen != BitsOf(base) then " ge " + IntText(minLen) else "";
    var b := if maxLen != BitLen(base) then " le " + IntText(maxLen) else "";
    assert NoTrailingSpace(a) by {
      AppendTrailing(" ge ", IntText(minLen));
    }
    assert NoTrailingSpace(b) by {
      AppendTrailing(" le ", IntText(maxLen));
    }
    hide IntText;
    AppendTrailing(a, b);
  }

  lemma PrefixStringEnds(p: Prefix)
    ensures NoTrailingSpace(PrefixString(p))
    ensures PrefixString(p) == "" || '0' <= PrefixString(p)[0] <= '9'
  {
    if p.Net? {
      Text.DecimalDigits(p.bits);
      var d := Text.Decimal(p.bits);
      AppendTrailing(AddrText(First(p)) + "/", d);
      AddrTextStarts(First(p));
    }
  }

  lemma AddrTextStarts(a: Addr)
    ensures AddrText(a) != "" && '0' <= AddrText(a)[0] <= '9'
  {
    if a.family.V4? {
      Text.JoinCons(Quads(a.value), ".");
      Text.DecimalDigits(Octet(a.value, 0));
    } else {
      Text.DecimalDigits(a.value);
    }
  }

  /** How a leaf's text may begin and end. */
  predicate LeafShape(t: string) {
    && ',' !in t && NoTrailingSpace(t)
    && (t == "" || t[0] == 'a' || '0' <= t[0] <= '9' || (|t| > 1 && t[0] == ' ' && (t[1] == 'g' || t[1] == 'l')))
  }

  lemma LeafTextShape(s: PrefixSet)
    requires !s.UnionSet?
    ensures LeafShape(LeafText(s))
  {
    match s
    case AnySet =>
    case ExactSet(p) =>
      PrefixStringEnds(p);
      PrefixStringChars(p, ',');
    case RangeSet(base, minLen, maxLen) =>
      PrefixStringEnds(base);
      PrefixStringChars(base, ',');
      BoundsChars(base, minLen, maxLen);
      BoundsWord(base, minLen, maxLen);
      hide Bounds, PrefixString;
      ConcatShape(PrefixString(base), Bounds(base, minLen, maxLen));
  }

  predicate BoundShape(t: string) {
    t == "" || (|t| > 1 && t[0] == ' ' && (t[1] == 'g' || t[1] == 'l'))
  }

  lemma BoundsWord(base: Prefix, minLen: int, maxLen: int)
    ensures BoundShape(Bounds(base, minLen, maxLen))
  {
    hide IntText;
    assert " ge " + IntText(minLen) != "" && (" ge " + IntText(minLen))[0] == ' '
      && (" ge " + IntText(minLen))[1] == 'g';
    assert " le " + IntText(maxLen) != "" && (" le " + IntText(maxLen))[0] == ' '
      && (" le " + IntText(maxLen))[1] == 'l';
  }

  lemma ConcatShape(head: string, tail: string)
    requires ',' !in head && ',' !in tail && NoTrailingSpace(head) && NoTrailingSpace(tail)
    requires head == "" || '0' <= head[0] <= '9'
    requires BoundShape(tail)
    ensures LeafShape(head + tail)
  {
    AppendTrailing(head, tail);
    assert head == "" ==> head + tail == tail;
    assert head != "" ==> (head + tail)[0] == head[0];
  }

  /** How a whole set's text may begin and end. */
  predicate SetShape(t: string) {
    NoTrailingSpace(t) && (t == "" || t[0] == ',' || LeafStart(t))
  }

  predicate LeafStart(t: string) {
    t != "" && (t[0] == 'a' || '0' <= t[0] <= '9' || (|t| > 1 && t[0] == ' ' && (t[1] == 'g' || t[1] == 'l')))
  }

  lemma {:induction false} JoinShape(parts: seq<string>)
    requires parts != [] && forall i :: 0 <= i < |parts| ==> LeafShape(parts[i])
    ensures SetShape(Text.Join(parts, ","))
  {
    Text.JoinCons(parts, ",");
    var first := parts[0];
    if |parts| > 1 {
      JoinShape(parts[1..]);
      var rest := Text.Join(parts[1..], ",");
      AppendTrailing(",", rest);
      AppendTrailing(first, "," + rest);
    } else {
      assert first + "" == first;
    }
  }

  lemma SetStringShape(s: PrefixSet)
    ensures SetShape(SetString(s))
  {
    StringOfLeaves(s);
    var texts := LeafTexts(Leaves(s));
    forall i | 0 <= i < |texts|
      ensures LeafShape(texts[i])
    {
      LeafTextShape(Leaves(s)[i]);
    }
    hide LeafText, SetString;
    JoinShape(texts);
  }

  /** Trimming takes off at most one blank, in front. */
  lemma TrimShape(t: string)
    requires SetShape(t)
    ensures TrimSpace(t) == if t != "" && t[0] == ' ' then t[1..] else t
  {
    if t != "" && t[0] == ' ' {
      assert t[1..][|t| - 2] == t[|t| - 1];
    }
  }

  /** Trimmed texts that agree come from texts that agree. */
  lemma TrimInjective(s: string, t: string)
    requires SetShape(s) && SetShape(t) && TrimSpace(s) == TrimSpace(t)
    ensures s == t
  {
    TrimShape(s);
    TrimShape(t);
    if s != "" && s[0] == ' ' {
      assert s == [' '] + s[1..];
    }
    if t != "" && t[0] == ' ' {
      assert t == [' '] + t[1..];
    }
  }

  datatype Kind = AddressSpace | Nlri {
    function Word(): string { if Nlri? then "nlri" else "address_space" }
  }

  /** prefixSetKey */
  function SetKey(kind: Kind, s: PrefixSet): string {
    kind.Word() + ":" + TrimSpace(SetString(s))
  }

  /** Predicates that share a key have the same intervals: skipping the second loses no boundary. */
  lemma KeyDeterminesIntervals(m: Kind, s: PrefixSet, n: Kind, t: PrefixSet)
    requires SetKey(m, s) == SetKey(n, t)
    ensures m == n && Intervals(s) == Intervals(t)
  {
    KindsAgree(m, n, TrimSpace(SetString(s)), TrimSpace(SetString(t)));
    SetStringShape(s);
    SetStringShape(t);
    TrimInjective(SetString(s), SetString(t));
    StringOfLeaves(s);
    StringOfLeaves(t);
    IntervalsOfLeaves(s);
    IntervalsOfLeaves(t);
    LeavesAgree(Leaves(s), Leaves(t));
  }

  lemma KindsAgree(m: Kind, n: Kind, a: string, b: string)
    requires m.Word() + ":" + a == n.Word() + ":" + b
    ensures m == n && a == b
  {
    if m == n {
      Text.DropHead(m.Word() + ":", a, b);
    } else {
      Text.HeadDiffers(m.Word() + ":", n.Word() + ":", a, b);
    }
  }

  lemma LeavesAgree(ls: seq<PrefixSet>, ms: seq<PrefixSet>)
    requires ls != [] && ms != []
    requires forall i :: 0 <= i < |ls| ==> !ls[i].UnionSet?
    requires forall i :: 0 <= i < |ms| ==> !ms[i].UnionSet?
    requires Text.Join(LeafTexts(ls), ",") == Text.Join(LeafTexts(ms), ",")
    ensures LeafSpans(ls) == LeafSpans(ms)
  {
    var a, b := LeafTexts(ls), LeafTexts(ms);
    forall n | n in a || n in b
      ensures ',' !in n
    {
      if n in a {
        var i :| 0 <= i < |a| && a[i] == n;
        LeafTextShape(ls[i]);
      } else {
        var i :| 0 <= i < |b| && b[i] == n;
        LeafTextShape(ms[i]);
      }
    }
    Text.JoinInjective(',', a, b);
    hide LeafText, LeafSpan;
    forall i | 0 <= i < |ls|
      ensures LeafSpan(ls[i]) == LeafSpan(ms[i])
    {
      assert a[i] == b[i];
      TextDeterminesSpan(ls[i], ms[i]);
    }
  }
}
