/** How prefixes are written. */
module PrefixText {
  import opened Prefixes
  import Text

  function Octet(value: nat, i: nat): nat
    requires i < 4
  {
    if i == 0 then value / 16777216
    else if i == 1 then value / 65536 % 256
    else if i == 2 then value / 256 % 256
    else value % 256
  }

  function Quads(value: nat): seq<string> {
    [Text.Decimal(Octet(value, 0)), Text.Decimal(Octet(value, 1)), Text.Decimal(Octet(value, 2)),
      Text.Decimal(Octet(value, 3))]
  }

  /** Dotted decimal for IPv4; an IPv6 address is one number and a colon here. */
  function AddrText(a: Addr): string {
    if a.family.V4? then Text.Join(Quads(a.value), ".") else Text.Decimal(a.value) + ":"
  }

  function PrefixString(p: Prefix): string {
    if p.Zero? then "" else AddrText(First(p)) + "/" + Text.Decimal(p.bits)
  }

  lemma {:induction false} JoinChars(parts: seq<string>, sep: string, c: char)
    requires c !in sep && forall n :: n in parts ==> c !in n
    ensures c !in Text.Join(parts, sep)
  {
    if parts != [] {
      assert parts[0] in parts;
      JoinChars(parts[1..], sep, c);
    }
  }

  lemma DecimalChars(n: nat, c: char)
    requires !('0' <= c <= '9')
    ensures c !in Text.Decimal(n)
  {
    Text.DecimalDigits(n);
  }

  lemma AddrTextChars(a: Addr, c: char)
    requires !('0' <= c <= '9') && c != '.' && c != ':'
    ensures c !in AddrText(a)
  {
    if a.family.V4? {
      QuadsChars(a.value, c);
      JoinChars(Quads(a.value), ".", c);
    } else {
      DecimalChars(a.value, c);
    }
  }

  lemma QuadsChars(value: nat, c: char)
    requires !('0' <= c <= '9')
    ensures forall n :: n in Quads(value) ==> c !in n
  {
    DecimalChars(Octet(value, 0), c);
    DecimalChars(Octet(value, 1), c);
    DecimalChars(Octet(value, 2), c);
    DecimalChars(Octet(value, 3), c);
    hide Octet;
  }

  lemma SameQuads(v: nat, w: nat, i: nat)
    requires i < 4 && Quads(v) == Quads(w)
    ensures Octet(v, i) == Octet(w, i)
  {
    hide Octet;
    assert Text.Decimal(Octet(v, i)) == Quads(v)[i] == Quads(w)[i] == Text.Decimal(Octet(w, i));
    Text.DecimalInjective(Octet(v, i), Octet(w, i));
  }

  lemma OctetsRebuild(v: nat)
    ensures v == ((Octet(v, 0) * 256 + Octet(v, 1)) * 256 + Octet(v, 2)) * 256 + Octet(v, 3)
  {
    var a := v / 256;
    var b := a / 256;
    assert v / 65536 == b;
    assert v / 16777216 == b / 256;
  }

  lemma DottedQuad(v: nat, w: nat)
    requires AddrText(Addr(V4, v)) == AddrText(Addr(V4, w))
    ensures v == w
  {
    QuadsChars(v, '.');
    QuadsChars(w, '.');
    Text.JoinInjective('.', Quads(v), Quads(w));
    SameQuads(v, w, 0);
    SameQuads(v, w, 1);
    SameQuads(v, w, 2);
    SameQuads(v, w, 3);
    OctetsRebuild(v);
    OctetsRebuild(w);
    hide Quads, AddrText, Octet;
  }

  lemma AddrTextInjective(a: Addr, b: Addr)
    requires AddrText(a) == AddrText(b)
    ensures a == b
  {
    if a.family.V4? {
      NoColon(a);
      if b.family.V4? {
        DottedQuad(a.value, b.value);
      } else {
        EndsInColon(b);
      }
    } else {
      EndsInColon(a);
      if b.family.V4? {
        NoColon(b);
      } else {
        var s, t := Text.Decimal(a.value), Text.Decimal(b.value);
        assert s == (s + ":")[..|s + ":"| - 1] == (t + ":")[..|t + ":"| - 1] == t;
        Text.DecimalInjective(a.value, b.value);
      }
    }
  }

  lemma NoColon(a: Addr)
    requires a.family.V4?
    ensures ':' !in AddrText(a)
  {
    QuadsChars(a.value, ':');
    JoinChars(Quads(a.value), ".", ':');
  }

  lemma EndsInColon(a: Addr)
    requires a.family.V6?
    ensures ':' in AddrText(a)
  {
    var s := Text.Decimal(a.value);
    assert (s + ":")[|s|] == ':';
  }

  /** A prefix can be read back from its text. */
  lemma PrefixStringInjective(p: Prefix, q: Prefix)
    requires PrefixString(p) == PrefixString(q)
    ensures p == q
  {
    if p.Net? && q.Net? {
      var s, t := "/" + Text.Decimal(p.bits), "/" + Text.Decimal(q.bits);
      AddrTextChars(First(p), '/');
      AddrTextChars(First(q), '/');
      Text.Assoc(AddrText(First(p)), "/", Text.Decimal(p.bits));
      Text.Assoc(AddrText(First(q)), "/", Text.Decimal(q.bits));
      Text.SplitAtSeparator('/', AddrText(First(p)), AddrText(First(q)), s, t);
      AddrTextInjective(First(p), First(q));
      Text.DropHead("/", Text.Decimal(p.bits), Text.Decimal(q.bits));
      Text.DecimalInjective(p.bits, q.bits);
    } else if p.Net? {
      SlashWithin(p);
    } else if q.Net? {
      SlashWithin(q);
    }
  }

  lemma SlashWithin(p: Prefix)
    requires p.Net?
    ensures '/' in PrefixString(p)
  {
    var s := AddrText(First(p));
    assert (s + "/" + Text.Decimal(p.bits))[|s|] == '/';
  }

  /** No character of a prefix outside digits and punctuation. */
  lemma PrefixStringChars(p: Prefix, c: char)
    requires !('0' <= c <= '9') && c != '.' && c != ':' && c != '/'
    ensures c !in PrefixString(p)
  {
    if p.Net? {
      AddrTextChars(First(p), c);
      DecimalChars(p.bits, c);
    }
  }
}
