/** Strings as the program compares and joins them. */
module Text {

  /** The order of Go's `<` on strings. */
  predicate Less(a: string, b: string) {
    if b == [] then false
    else if a == [] then true
    else if a[0] != b[0] then a[0] < b[0]
    else Less(a[1..], b[1..])
  }

  lemma {:induction false} LessIrreflexive(a: string)
    ensures !Less(a, a)
  {
    if a != [] {
      LessIrreflexive(a[1..]);
    }
  }

  lemma {:induction false} LessTransitive(a: string, b: string, c: string)
    requires Less(a, b) && Less(b, c)
    ensures Less(a, c)
  {
    if a != [] && a[0] == b[0] && b[0] == c[0] {
      LessTransitive(a[1..], b[1..], c[1..]);
    }
  }

  lemma {:induction false} LessTotal(a: string, b: string)
    ensures a == b || Less(a, b) || Less(b, a)
  {
    if a != [] && b != [] && a[0] == b[0] {
      LessTotal(a[1..], b[1..]);
      assert a == [a[0]] + a[1..];
      assert b == [b[0]] + b[1..];
    }
  }

  lemma LessAsymmetric(a: string, b: string)
    requires Less(a, b)
    ensures !Less(b, a)
  {
    if Less(b, a) {
      LessTransitive(a, b, a);
      LessIrreflexive(a);
    }
  }

  /** Alike up to position k, where the first string ends or has the lower character. */
  predicate FirstLower(a: string, b: string, k: nat) {
    && k <= |a| && k < |b| && a[..k] == b[..k]
    && (k == |a| || a[k] < b[k])
  }

  lemma SameHead(a: string, b: string, k: nat)
    requires 0 < k <= |a| && k <= |b| && a[..k] == b[..k]
    ensures a[0] == b[0]
  {
    assert a[..k][0] == b[..k][0];
  }

  /** The order of strings: by the first character that differs, a beginning before the whole. */
  lemma {:induction false} LessExactly(a: string, b: string)
    ensures Less(a, b) <==> exists k: nat :: FirstLower(a, b, k)
  {
    if a == [] || b == [] || a[0] != b[0] {
      if b != [] && (a == [] || a[0] < b[0]) {
        assert FirstLower(a, b, 0);
      }
      forall k: nat | FirstLower(a, b, k)
        ensures k == 0
      {
        if k > 0 {
          SameHead(a, b, k);
        }
      }
    } else {
      LessExactly(a[1..], b[1..]);
      if k: nat :| FirstLower(a[1..], b[1..], k) {
        assert a[..k + 1] == [a[0]] + a[1..][..k] && b[..k + 1] == [b[0]] + b[1..][..k];
        assert FirstLower(a, b, k + 1);
      }
      if k: nat :| FirstLower(a, b, k) {
        assert k > 0;
        assert a[1..][..k - 1] == a[..k][1..] == b[..k][1..] == b[1..][..k - 1];
        assert FirstLower(a[1..], b[1..], k - 1);
      }
    }
  }

  /** strings.Join */
  function Join(parts: seq<string>, sep: string): string {
    if parts == [] then ""
    else if |parts| == 1 then parts[0]
    else parts[0] + sep + Join(parts[1..], sep)
  }

  /** Joining with a separator, peeled at the front. */
  lemma JoinCons(parts: seq<string>, sep: string)
    requires parts != []
    ensures Join(parts, sep) == parts[0] + if |parts| == 1 then "" else sep + Join(parts[1..], sep)
  {
    if |parts| == 1 {
      assert parts[0] + "" == parts[0];
    } else {
      Assoc(parts[0], sep, Join(parts[1..], sep));
    }
  }

  lemma Assoc(a: string, b: string, c: string)
    ensures a + b + c == a + (b + c)
  {
  }

  /** Equal heads can be taken off equal strings. */
  lemma DropHead(h: string, s: string, t: string)
    requires h + s == h + t
    ensures s == t
  {
    assert s == (h + s)[|h|..];
    assert t == (h + t)[|h|..];
  }

  /** Strings that start with different characters differ. */
  lemma HeadDiffers(g: string, h: string, s: string, t: string)
    requires g != "" && h != "" && g[0] != h[0]
    ensures g + s != h + t
  {
    assert (g + s)[0] == g[0];
    assert (h + t)[0] == h[0];
  }

  /** A common head does not matter to the order. */
  lemma {:induction false} LessAfterHead(h: string, s: string, t: string)
    ensures Less(h + s, h + t) <==> Less(s, t)
  {
    if h == "" {
      assert h + s == s && h + t == t;
    } else {
      assert (h + s)[1..] == h[1..] + s && (h + t)[1..] == h[1..] + t;
      LessAfterHead(h[1..], s, t);
    }
  }

  /** Two texts without the separator, each followed by it or by nothing. */
  lemma {:induction false} SplitAtSeparator(sep: char, a: string, b: string, s: string, t: string)
    requires sep !in a && sep !in b && a + s == b + t
    requires (s == "" || s[0] == sep) && (t == "" || t[0] == sep)
    ensures a == b && s == t
  {
    assert a == "" ==> a + s == s;
    assert b == "" ==> b + t == t;
    assert a != "" ==> (a + s)[0] == a[0];
    assert b != "" ==> (b + t)[0] == b[0];
    if a != "" && b != "" {
      assert (a + s)[1..] == a[1..] + s;
      assert (b + t)[1..] == b[1..] + t;
      SplitAtSeparator(sep, a[1..], b[1..], s, t);
      assert a == [a[0]] + a[1..] && b == [b[0]] + b[1..];
    }
  }

  /** Non-empty lists of names without the separator can be read back from their join. */
  lemma {:induction false} JoinInjective(sep: char, a: seq<string>, b: seq<string>)
    requires a != [] && b != [] && Join(a, [sep]) == Join(b, [sep])
    requires forall n :: n in a || n in b ==> sep !in n
    ensures a == b
  {
    JoinCons(a, [sep]);
    JoinCons(b, [sep]);
    var s, t := if |a| == 1 then "" else [sep] + Join(a[1..], [sep]), if |b| == 1 then ""
      else [sep] + Join(b[1..], [sep]);
    assert a[0] in a && b[0] in b;
    SplitAtSeparator(sep, a[0], b[0], s, t);
    assert a == [a[0]] + a[1..] && b == [b[0]] + b[1..];
    if |a| > 1 && |b| > 1 {
      DropHead([sep], Join(a[1..], [sep]), Join(b[1..], [sep]));
      JoinInjective(sep, a[1..], b[1..]);
    }
  }

  /** strconv.Itoa on a natural number. */
  function Decimal(n: nat): string {
    if n < 10 then [Digit(n)] else Decimal(n / 10) + [Digit(n % 10)]
  }

  function Digit(d: nat): char
    requires d < 10
  {
    '0' + d as char
  }

  predicate Digits(s: string) {
    s != "" && forall i :: 0 <= i < |s| ==> '0' <= s[i] <= '9'
  }

  lemma {:induction false} DecimalDigits(n: nat)
    ensures Digits(Decimal(n))
  {
    if n >= 10 {
      DecimalDigits(n / 10);
    }
  }

  /** A number can be read back from its digits. */
  lemma {:induction false} DecimalInjective(m: nat, n: nat)
    requires Decimal(m) == Decimal(n)
    ensures m == n
  {
    DecimalDigits(m / 10);
    DecimalDigits(n / 10);
    if m >= 10 && n >= 10 {
      assert Decimal(m / 10) == Decimal(m)[..|Decimal(m)| - 1] == Decimal(n / 10);
      assert Digit(m % 10) == Decimal(m)[|Decimal(m)| - 1] == Digit(n % 10);
      DecimalInjective(m / 10, n / 10);
    }
  }
}
