/** The few Python string operations the expectation check relies on:
    the `in` operator on strings, the slice `s[:n]`, the order `<` that
    `sorted` uses, and the decimal rendering of an index in an f-string. */
module Text {

  /** Python's `p in s` for two strings: `p` is a contiguous run of `s`.
      The empty string occurs in every string. */
  predicate Occurs(p: string, s: string)
    decreases |s|
  {
    p <= s || (|s| > 0 && Occurs(p, s[1..]))
  }

  /** `p` occurs in `s` starting at offset `k`. */
  predicate OccursAt(p: string, s: string, k: nat)
  {
    k + |p| <= |s| && s[k..k + |p|] == p
  }

  /** `Occurs` is the usual substring relation: some offset carries `p`. */
  lemma OccursIffOffset(p: string, s: string)
    ensures Occurs(p, s) <==> exists k: nat :: OccursAt(p, s, k)
  {
    if Occurs(p, s) {
      var k := OffsetOf(p, s);
    }
    if exists k: nat :: OccursAt(p, s, k) {
      var k: nat :| OccursAt(p, s, k);
      OccursFromOffset(p, s, k);
    }
  }

  /** An offset at which `p` occurs in `s`, when it does. */
  lemma {:induction false} OffsetOf(p: string, s: string) returns (k: nat)
    requires Occurs(p, s)
    ensures OccursAt(p, s, k)
    decreases |s|
  {
    if p <= s {
      k := 0;
      assert s[..|p|] == p;
    } else {
      var j := OffsetOf(p, s[1..]);
      assert s[1..][j..j + |p|] == s[j + 1..j + 1 + |p|];
      k := j + 1;
    }
  }

  /** `p` occurring at some offset of `s` is `p in s`. */
  lemma {:induction false} OccursFromOffset(p: string, s: string, k: nat)
    requires OccursAt(p, s, k)
    ensures Occurs(p, s)
    decreases k
  {
    if k == 0 {
      assert s[..|p|] == p;
    } else {
      assert s[1..][k - 1..k - 1 + |p|] == s[k..k + |p|];
      OccursFromOffset(p, s[1..], k - 1);
    }
  }

  /** A string longer than `s` cannot occur in `s`. */
  lemma LongerNeverOccurs(p: string, s: string)
    requires |p| > |s|
    ensures !Occurs(p, s)
  {
    OccursIffOffset(p, s);
  }

  /** A string holding a character that `s` lacks cannot occur in `s`. */
  lemma MissingCharNeverOccurs(p: string, s: string, i: nat)
    requires i < |p| && p[i] !in s
    ensures !Occurs(p, s)
  {
    forall k: nat
      ensures !OccursAt(p, s, k)
    {
      if k + |p| <= |s| {
        assert s[k..k + |p|][i] == s[k + i];
      }
    }
    OccursIffOffset(p, s);
  }

  /** Python's slice `s[:n]`: the first `n` characters, or all of `s` when shorter. */
  function Truncate(s: string, n: nat): (r: string)
    ensures |r| <= n && r <= s
    ensures |s| <= n ==> r == s
    ensures |s| >= n ==> |r| == n
  {
    if |s| <= n then s else s[..n]
  }

  /** A string occurs in `s[:n]` exactly when it occurs in `s` at an offset
      where it ends within the first `n` characters. */
  lemma OccursInTruncated(p: string, s: string, n: nat)
    ensures Occurs(p, Truncate(s, n)) <==> exists k: nat :: k + |p| <= n && OccursAt(p, s, k)
  {
    var t := Truncate(s, n);
    OccursIffOffset(p, t);
    forall k: nat
      ensures OccursAt(p, t, k) <==> k + |p| <= n && OccursAt(p, s, k)
    {
      if k + |p| <= |t| {
        assert t[k..k + |p|] == s[k..k + |p|];
      }
    }
  }

  /** Python's `a < b` on strings: compares code point by code point, and a
      proper prefix is smaller than the longer string. */
  predicate Less(a: string, b: string)
  {
    |b| > 0 && (|a| == 0 || a[0] < b[0] || (a[0] == b[0] && Less(a[1..], b[1..])))
  }

  lemma {:induction false} LessIrreflexive(a: string)
    ensures !Less(a, a)
  {
    if |a| > 0 {
      LessIrreflexive(a[1..]);
    }
  }

  lemma {:induction false} LessTransitive(a: string, b: string, c: string)
    requires Less(a, b) && Less(b, c)
    ensures Less(a, c)
  {
    if |a| > 0 && a[0] == b[0] && b[0] == c[0] {
      LessTransitive(a[1..], b[1..], c[1..]);
    }
  }

  /** Two different strings are always ordered one way or the other. */
  lemma {:induction false} LessTotal(a: string, b: string)
    requires a != b
    ensures Less(a, b) || Less(b, a)
  {
    if |a| > 0 && |b| > 0 && a[0] == b[0] {
      assert a == [a[0]] + a[1..] && b == [b[0]] + b[1..];
      LessTotal(a[1..], b[1..]);
    }
  }

  lemma LessAsymmetric(a: string, b: string)
    requires Less(a, b)
    ensures !Less(b, a)
  {
    if Less(b, a) {
      LessTransitive(a, b, a);
      LessIrreflexive(a);
    }
  }

  /** The decimal digits of `n`, as an f-string renders an `int`. */
  function Decimal(n: nat): (r: string)
    ensures |r| > 0
    ensures forall i | 0 <= i < |r| :: '0' <= r[i] <= '9'
  {
    if n < 10 then [Digit(n)] else Decimal(n / 10) + [Digit(n % 10)]
  }

  function Digit(d: nat): (c: char)
    requires d < 10
    ensures '0' <= c <= '9'
  {
    (48 + d) as char
  }

  /** The number a string of decimal digits spells, most significant first. */
  function DigitsValue(s: string): nat
    requires forall i | 0 <= i < |s| :: '0' <= s[i] <= '9'
  {
    if s == [] then 0 else DigitsValue(s[..|s| - 1]) * 10 + (s[|s| - 1] as int - 48)
  }

  /** `Decimal(n)` spells `n`. */
  lemma {:induction false} DecimalValue(n: nat)
    ensures DigitsValue(Decimal(n)) == n
  {
    if n >= 10 {
      DecimalValue(n / 10);
      var r := Decimal(n);
      assert r[..|r| - 1] == Decimal(n / 10);
    }
  }

  /** Different numbers are written differently. */
  lemma DecimalInjective(m: nat, n: nat)
    requires Decimal(m) == Decimal(n)
    ensures m == n
  {
    DecimalValue(m);
    DecimalValue(n);
  }
}
