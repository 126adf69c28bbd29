/**
 * Finding a celebrity among people 0 .. n-1 with the two-pass
 * candidate-elimination algorithm of Find_a_Celebrity.py.
 *
 * The `knows` oracle is not part of the program; it is a parameter here, a
 * total relation on person indices with no side effects.
 */
module Celebrity {

  /** `c` is a celebrity among 0 .. n-1: everyone else knows `c`, and `c` knows nobody else. */
  ghost predicate IsCelebrity(knows: (int, int) -> bool, n: int, c: int)
  {
    0 <= c < n &&
    forall i :: 0 <= i < n && i != c ==> !knows(c, i) && knows(i, c)
  }

  /**
   * The candidate left after the elimination pass over `range(1, i)`:
   * whenever the current candidate knows `i - 1`, `i - 1` takes its place.
   */
  function Candidate(knows: (int, int) -> bool, i: int): (c: int)
    ensures 0 <= c
    ensures i <= 1 ==> c == 0
    ensures i >= 1 ==> c < i
  {
    if i <= 1 then 0
    else
      var prev := Candidate(knows, i - 1);
      if knows(prev, i - 1) then i - 1 else prev
  }

  /** There is at most one celebrity. */
  lemma {:induction false} CelebrityUnique(knows: (int, int) -> bool, n: int, c: int, d: int)
    requires IsCelebrity(knows, n, c) && IsCelebrity(knows, n, d)
    ensures c == d
  {
    // were they different, each would have to know the other and not know it
    assert c != d ==> !knows(c, d) && !knows(d, c);
    assert c != d ==> knows(d, c);
  }

  /**
   * Why a person is discarded by the elimination pass over `range(1, i)`:
   * some later person `k` made it step down because it knew `k`, or it was
   * never taken up because the candidate of its turn did not know it.
   */
  lemma {:induction false} Eliminated(knows: (int, int) -> bool, i: int, j: int)
    requires 0 <= j < i && j != Candidate(knows, i)
    ensures (exists k :: j < k < i && knows(j, k)) || (1 <= j && !knows(Candidate(knows, j), j))
  {
    var prev := Candidate(knows, i - 1);
    if j == i - 1 {
      // j was not taken up at its own turn
      assert !knows(prev, j);
    } else if j == prev {
      // j was the candidate and stepped down for i - 1
      assert knows(j, i - 1);
    } else {
      Eliminated(knows, i - 1, j);
    }
  }

  /**
   * The elimination invariant: among 0 .. i-1, nobody but the candidate
   * can be a celebrity of the whole group, for either reason `Eliminated`
   * gives: a discarded person knows somebody, or is not known by somebody.
   */
  lemma {:induction false} OnlyCandidateCanBeCelebrity(knows: (int, int) -> bool, n: int, i: int)
    requires 0 <= i <= n
    ensures forall j :: 0 <= j < i && j != Candidate(knows, i) ==> !IsCelebrity(knows, n, j)
  {
    forall j | 0 <= j < i && j != Candidate(knows, i)
      ensures !IsCelebrity(knows, n, j)
    {
      Eliminated(knows, i, j);
      if !exists k :: j < k < i && knows(j, k) {
        var c := Candidate(knows, j);
        assert 0 <= c < j && !knows(c, j);
      }
    }
  }

  /**
   * findCelebrity: returns the celebrity's index, or -1 when there is none.
   * For n <= 0 both loops are empty and the initial candidate 0 is returned.
   * `queries` counts the calls to `knows`; `or` short-circuits, so the
   * second query of a pair is made only when the first answered false.
   */
  method FindCelebrity(knows: (int, int) -> bool, n: int) returns (r: int, queries: nat)
    ensures n <= 0 ==> r == 0 && queries == 0
    ensures n >= 1 ==> -1 <= r < n
    ensures n >= 1 && r != -1 ==> IsCelebrity(knows, n, r)
    ensures n >= 1 && r == -1 ==> forall c :: !IsCelebrity(knows, n, c)
    ensures forall c :: IsCelebrity(knows, n, c) ==> r == c
    ensures n == 1 ==> r == 0
    ensures n >= 1 ==> queries <= 3 * (n - 1)
  {
    // Step 1: elimination pass over range(1, n)
    var candidate := 0;
    queries := 0;
    var i := 1;
    while i < n
      invariant 1 <= i <= if n >= 1 then n else 1
      invariant candidate == Candidate(knows, i)
      invariant queries == i - 1
    {
      queries := queries + 1;
      if knows(candidate, i) {
        candidate := i;
      }
      i := i + 1;
    }
    if n >= 1 {
      OnlyCandidateCanBeCelebrity(knows, n, n);
    }

    // Step 2: verification pass over range(n)
    i := 0;
    while i < n
      invariant 0 <= i && (n >= 0 ==> i <= n)
      invariant forall j :: 0 <= j < i && j != candidate ==> !knows(candidate, j) && knows(j, candidate)
      invariant n >= 1 ==> queries <= (n - 1) + 2 * (if candidate < i then i - 1 else i)
      invariant n <= 0 ==> queries == 0
    {
      if i != candidate {
        queries := queries + 1;
        if knows(candidate, i) {
          r := -1;
          return;
        }
        queries := queries + 1;
        if !knows(i, candidate) {
          r := -1;
          return;
        }
      }
      i := i + 1;
    }
    r := candidate;
    forall c | IsCelebrity(knows, n, c) ensures r == c {
      CelebrityUnique(knows, n, c, r);
    }
  }
}
