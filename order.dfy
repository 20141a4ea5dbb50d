/** Ruby's `String#<=>`: strings compare character by character from the
    left, and a proper prefix sorts first. */
module Order {

  /** `a` sorts before `b`, given that they agree below position `k`. */
  predicate LessFrom(a: string, b: string, k: nat)
    decreases |a| - k
  {
    if k >= |a| then k < |b|
    else if k >= |b| then false
    else if a[k] != b[k] then a[k] < b[k]
    else LessFrom(a, b, k + 1)
  }

  predicate Less(a: string, b: string) { LessFrom(a, b, 0) }

  /** A common stretch between `k` and `m` does not decide the comparison. */
  lemma {:induction false} LessFromSkip(a: string, b: string, k: nat, m: nat)
    requires k <= m <= |a| && m <= |b| && a[k..m] == b[k..m]
    ensures LessFrom(a, b, k) == LessFrom(a, b, m)
    decreases m - k
  {
    if k < m {
      assert a[k] == a[k..m][0] == b[k..m][0] == b[k];
      assert a[k + 1..m] == a[k..m][1..] == b[k..m][1..] == b[k + 1..m];
      LessFromSkip(a, b, k + 1, m);
    }
  }

  lemma {:induction false} LessFromIrreflexive(a: string, k: nat)
    ensures !LessFrom(a, a, k)
    decreases |a| - k
  {
    if k < |a| { LessFromIrreflexive(a, k + 1); }
  }

  lemma {:induction false} LessFromTransitive(a: string, b: string, c: string, k: nat)
    requires LessFrom(a, b, k) && LessFrom(b, c, k)
    ensures LessFrom(a, c, k)
    decreases |a| - k
  {
    if k < |a| && k < |b| && k < |c| && a[k] == b[k] && b[k] == c[k] {
      LessFromTransitive(a, b, c, k + 1);
    }
  }

  /** Two strings that agree below `k` and are not `LessFrom`-ordered either
      way are equal. */
  lemma {:induction false} LessFromTotal(a: string, b: string, k: nat)
    requires k <= |a| && k <= |b| && a[..k] == b[..k]
    ensures a == b || LessFrom(a, b, k) || LessFrom(b, a, k)
    decreases |a| - k
  {
    if k < |a| && k < |b| && a[k] == b[k] {
      assert a[..k + 1] == a[..k] + [a[k]] && b[..k + 1] == b[..k] + [b[k]];
      LessFromTotal(a, b, k + 1);
    } else if k == |a| && k == |b| {
      assert a == a[..k] && b == b[..k];
    }
  }

  lemma LessIrreflexive(a: string)
    ensures !Less(a, a)
  {
    LessFromIrreflexive(a, 0);
  }

  lemma LessTransitive(a: string, b: string, c: string)
    requires Less(a, b) && Less(b, c)
    ensures Less(a, c)
  {
    LessFromTransitive(a, b, c, 0);
  }

  /** Any two different strings are ordered one way or the other. */
  lemma LessTotal(a: string, b: string)
    ensures a == b || Less(a, b) || Less(b, a)
  {
    LessFromTotal(a, b, 0);
  }

  lemma LessAsymmetric(a: string, b: string)
    requires Less(a, b)
    ensures !Less(b, a)
  {
    if Less(b, a) {
      LessTransitive(a, b, a);
      LessIrreflexive(a);
    }
  }

  /** Each name sorts strictly before the next one. */
  predicate StrictlyAscending(s: seq<string>) {
    forall i :: 0 <= i < |s| - 1 ==> Less(s[i], s[i + 1])
  }

  /** Any earlier name sorts strictly before any later one. */
  predicate Ascending(s: seq<string>) {
    forall i, j :: 0 <= i < j < |s| ==> Less(s[i], s[j])
  }

  /** A list whose neighbours are in order holds no name twice. */
  lemma StrictlyAscendingDistinct(s: seq<string>)
    requires StrictlyAscending(s)
    ensures forall i, j :: 0 <= i < j < |s| ==> s[i] != s[j]
  {
    StrictlyAscendingIsAscending(s);
  }

  /** A list whose neighbours are in order is ordered between any two
      positions, and so holds no name twice. */
  lemma {:induction false} StrictlyAscendingIsAscending(s: seq<string>)
    requires StrictlyAscending(s)
    ensures Ascending(s)
    ensures forall i, j :: 0 <= i < j < |s| ==> s[i] != s[j]
  {
    if |s| > 1 {
      StrictlyAscendingIsAscending(s[1..]);
      forall j | 0 < j < |s| ensures Less(s[0], s[j]) {
        if j > 1 { LessTransitive(s[0], s[1], s[j]); }
      }
    }
    forall i, j | 0 <= i < j < |s| ensures s[i] != s[j] {
      if s[i] == s[j] { LessIrreflexive(s[i]); }
    }
  }
}
