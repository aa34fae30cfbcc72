/**
 * The alias candidates the named-import policy tries for a name `X` with
 * escape character `$`: `X`, `X$`, `X$2`, `X$3`, ... (the post-increment
 * test `i++ > 0` makes the second alias `X$2`; `X$1` is never tried).
 */
module AliasCandidates {

  /** The decimal digit character for `d`. */
  function DigitChar(d: nat): (c: char)
    requires d < 10
    ensures '0' <= c <= '9'
    ensures c as int - '0' as int == d
  {
    (('0' as int) + d) as char
  }

  /** The number a string of decimal digits denotes, most significant first. */
  function DecimalValue(s: string): int
  {
    if |s| == 0 then 0 else 10 * DecimalValue(s[..|s| - 1]) + (s[|s| - 1] as int - '0' as int)
  }

  /**
   * `String(n)` for a natural number: its decimal digits, most significant
   * first, without a leading zero, denoting `n`.
   */
  function Decimal(n: nat): (s: string)
    ensures |s| >= 1
    ensures n >= 10 ==> |s| >= 2
    ensures forall k :: 0 <= k < |s| ==> '0' <= s[k] <= '9'
    ensures s[0] == '0' ==> n == 0
    ensures DecimalValue(s) == n
    decreases n
  {
    if n < 10 then [DigitChar(n)]
    else
      var s := Decimal(n / 10) + [DigitChar(n % 10)];
      assert s[..|s| - 1] == Decimal(n / 10);
      s
  }

  /** Different numbers have different decimal forms. */
  lemma DecimalInjective(a: nat, b: nat)
    requires Decimal(a) == Decimal(b)
    ensures a == b
  {
    assert DecimalValue(Decimal(a)) == DecimalValue(Decimal(b));
  }

  /**
   * The `k`-th identifier the alias loop holds in `as`: the name itself,
   * then the name with the escape character, then the name with the
   * escape character and the decimal form of `k`.
   */
  function Candidate(name: string, escape: char, k: nat): string
  {
    if k == 0 then name
    else if k == 1 then name + [escape]
    else name + [escape] + Decimal(k)
  }

  /**
   * Every candidate starts with the name; only the first is the bare name;
   * the others continue with the escape character, and from the third on
   * with digits that denote the candidate's index.
   */
  lemma CandidateShape(name: string, escape: char, k: nat)
    ensures var r := Candidate(name, escape, k);
      && |r| >= |name| && r[..|name|] == name
      && (|r| == |name| <==> k == 0)
      && (k >= 1 ==> r[|name|] == escape)
      && (k == 1 ==> |r| == |name| + 1)
      && (k >= 2 ==> DecimalValue(r[|name| + 1..]) == k)
  {
    var r := Candidate(name, escape, k);
    if k >= 2 {
      assert r[|name| + 1..] == Decimal(k);
    }
  }

  /** The candidates are pairwise distinct. */
  lemma {:induction false} CandidateInjective(name: string, escape: char, j: nat, k: nat)
    requires Candidate(name, escape, j) == Candidate(name, escape, k)
    ensures j == k
  {
    var cj, ck := Candidate(name, escape, j), Candidate(name, escape, k);
    if j >= 2 && k >= 2 {
      assert cj[|name| + 1..] == Decimal(j);
      assert ck[|name| + 1..] == Decimal(k);
      DecimalInjective(j, k);
    } else {
      assert |cj| == |ck|;
    }
  }

  /** No candidate is the name followed by the escape character and `1`. */
  lemma CandidateNeverOne(name: string, escape: char, k: nat)
    ensures Candidate(name, escape, k) != name + [escape, '1']
  {
    if k >= 2 {
      assert Candidate(name, escape, k)[|name| + 1..] == Decimal(k);
    }
  }

  /** The set of the first `n` candidates. */
  ghost function CandidateSet(name: string, escape: char, n: nat): (r: set<string>)
    ensures forall c :: c in r ==> exists j :: 0 <= j < n && c == Candidate(name, escape, j)
    ensures forall j :: 0 <= j < n ==> Candidate(name, escape, j) in r
  {
    if n == 0 then {} else CandidateSet(name, escape, n - 1) + {Candidate(name, escape, n - 1)}
  }

  /** The first `n` candidates are `n` different identifiers. */
  lemma {:induction false} CandidateSetSize(name: string, escape: char, n: nat)
    ensures |CandidateSet(name, escape, n)| == n
  {
    if n > 0 {
      CandidateSetSize(name, escape, n - 1);
      if Candidate(name, escape, n - 1) in CandidateSet(name, escape, n - 1) {
        var j :| 0 <= j < n - 1 && Candidate(name, escape, n - 1) == Candidate(name, escape, j);
        CandidateInjective(name, escape, j, n - 1);
      }
    }
  }

  /** A sequence has at least as many positions as distinct elements. */
  lemma {:induction false} ElementsAtMostLength(s: seq<string>)
    ensures |set x | x in s| <= |s|
  {
    if |s| > 0 {
      ElementsAtMostLength(s[1..]);
      assert (set x | x in s) == (set x | x in s[1..]) + {s[0]};
    }
  }

  /** A subset is no larger than its superset. */
  lemma SubsetSize(a: set<string>, b: set<string>)
    requires a <= b
    ensures |a| <= |b|
  {
    assert b == a + (b - a);
  }

  /**
   * Pigeonhole: if the first `n` candidates all occur in `taken`, then
   * `taken` has at least `n` entries. Hence the alias loop stops.
   */
  lemma CandidatesTakenBound(name: string, escape: char, taken: seq<string>, n: nat)
    requires forall j :: 0 <= j < n ==> Candidate(name, escape, j) in taken
    ensures n <= |taken|
  {
    CandidateSetSize(name, escape, n);
    SubsetSize(CandidateSet(name, escape, n), set x | x in taken);
    ElementsAtMostLength(taken);
  }

  /** `k` is the index of the first candidate not in `taken`. */
  ghost predicate IsFirstFree(name: string, escape: char, taken: seq<string>, k: nat)
  {
    Candidate(name, escape, k) !in taken &&
    forall j :: 0 <= j < k ==> Candidate(name, escape, j) in taken
  }

  /**
   * The index of the first candidate, from index `k` on, that is not in
   * `taken`: the reference definition of the alias loop.
   */
  function FirstFreeFrom(name: string, escape: char, taken: seq<string>, k: nat): (r: nat)
    requires k <= |taken|
    requires forall j :: 0 <= j < k ==> Candidate(name, escape, j) in taken
    ensures IsFirstFree(name, escape, taken, r)
    ensures r <= |taken|
    decreases |taken| - k
  {
    if Candidate(name, escape, k) !in taken then k
    else
      CandidatesTakenBound(name, escape, taken, k + 1);
      FirstFreeFrom(name, escape, taken, k + 1)
  }

  /** The index of the first free candidate. */
  function FirstFreeIndex(name: string, escape: char, taken: seq<string>): (r: nat)
    ensures IsFirstFree(name, escape, taken, r)
    ensures r == 0 <==> name !in taken
  {
    FirstFreeFrom(name, escape, taken, 0)
  }

  /** There is only one first free candidate. */
  lemma FirstFreeUnique(name: string, escape: char, taken: seq<string>, k1: nat, k2: nat)
    requires IsFirstFree(name, escape, taken, k1) && IsFirstFree(name, escape, taken, k2)
    ensures k1 == k2
  {
  }
}
