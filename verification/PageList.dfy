/**
 The free list of the page allocator as a sequence of pages, and the search for a run of
 consecutive pages (lib/alloc_page.c).
 */
module PageList {
  import opened Words
  import opened Wrappers
  import opened Arith

  const PAGE_WORDS: nat := 512

  /** Memory by page: the address of a page gives its words. */
  type Ram = map<nat, seq<nat>>

  /** Page `i` of a list; behind the end is the null pointer. */
  function At(list: seq<nat>, i: nat): nat {
    if i < |list| then list[i] else 0
  }

  predicate IsPage(p: nat) {
    0 < p < TWO64 && p % PAGE_SIZE == 0
  }

  /** Word 0 of page `i` of the list points to the next one, or is null for the last one. */
  predicate Linked(mem: Ram, list: seq<nat>, i: nat)
    requires i < |list|
  {
    IsPage(list[i]) && list[i] in mem && |mem[list[i]]| == PAGE_WORDS && mem[list[i]][0] == At(list, i + 1)
  }

  ghost predicate Chain(mem: Ram, head: nat, list: seq<nat>) {
    head == At(list, 0) && forall i: nat :: i < |list| ==> Linked(mem, list, i)
  }

  predicate NoDup(list: seq<nat>) {
    forall i, j :: 0 <= i < j < |list| ==> list[i] != list[j]
  }

  /** `n` consecutive pages. */
  function Block(page: nat, n: nat): (b: seq<nat>)
    ensures |b| == n && forall i :: 0 <= i < n ==> b[i] == page + i * PAGE_SIZE
  {
    seq(n, i => page + i * PAGE_SIZE)
  }

  /** The list without the `n` pages from position `i`. */
  function Without(list: seq<nat>, i: nat, n: nat): seq<nat>
    requires i + n <= |list|
  {
    list[..i] + list[i + n..]
  }

  /** A page at which a run of `n` pages may start. */
  predicate Aligned(page: nat, n: nat)
    requires n > 0
  {
    page % (n * PAGE_SIZE) == 0
  }

  /** Positions `i` up to `j` hold consecutive pages. */
  ghost predicate Consecutive(list: seq<nat>, i: nat, j: nat)
    requires i < j <= |list|
  {
    list[i..j] == Block(list[i], j - i)
  }

  /** An aligned run of `n` consecutive pages at position `i`. */
  ghost predicate IsRun(list: seq<nat>, i: nat, n: nat)
    requires n > 0
  {
    i + n <= |list| && Aligned(list[i], n) && Consecutive(list, i, i + n)
  }

  /** The length of the run after one more page. */
  function Next(list: seq<nat>, pos: nat, run: nat, n: nat): (run': nat)
    requires pos < |list| && n > 0 && run <= pos
    ensures run' <= run + 1
  {
    if run == 0 then (if Aligned(list[pos], n) then 1 else 0)
    else if list[pos] == list[pos - 1] + PAGE_SIZE then run + 1 else 0
  }

  /** The search loop of alloc_pages with `pos` pages visited and a run of `run` pages behind `pos`. */
  function Search(list: seq<nat>, pos: nat, run: nat, n: nat): (r: Option<nat>)
    requires run <= pos <= |list| && run < n
    decreases |list| - pos
  {
    if pos == |list| then None
    else
      var run' := Next(list, pos, run, n);
      if run' == n then Some(pos + 1 - n) else Search(list, pos + 1, run', n)
  }

  /** What alloc_pages knows about the run that it is following. */
  ghost predicate Following(list: seq<nat>, pos: nat, run: nat, n: nat)
    requires n > 0
  {
    run <= pos <= |list| && (run > 0 ==> Aligned(list[pos - run], n) && Consecutive(list, pos - run, pos))
  }

  lemma FollowOne(list: seq<nat>, pos: nat, run: nat, n: nat)
    requires n > 0 && pos < |list| && Following(list, pos, run, n)
    ensures run > 0 && list[pos] == list[pos - 1] + PAGE_SIZE ==> Following(list, pos + 1, run + 1, n)
    ensures Aligned(list[pos], n) ==> Following(list, pos + 1, 1, n)
  {
    hide Aligned;
    assert list[pos..pos + 1] == Block(list[pos], 1);
    if run > 0 && list[pos] == list[pos - 1] + PAGE_SIZE {
      var i := pos - run;
      assert list[pos - 1] == list[i..pos][run - 1] == list[i] + (run - 1) * PAGE_SIZE;
      assert list[i..pos + 1] == list[i..pos] + [list[pos]];
      assert list[i..pos + 1] == Block(list[i], run + 1);
    }
  }

  /** Whatever the search finds is an aligned run. */
  lemma {:induction false} SearchFinds(list: seq<nat>, pos: nat, run: nat, n: nat)
    requires run < n && Following(list, pos, run, n)
    ensures var r := Search(list, pos, run, n); r.Some? ==> IsRun(list, r.value, n)
    decreases |list| - pos
  {
    hide Aligned, Consecutive;
    if pos < |list| {
      FollowOne(list, pos, run, n);
      var run' := Next(list, pos, run, n);
      if run' < n {
        SearchFinds(list, pos + 1, run', n);
      }
    }
  }

  /** The run that alloc_pages follows once it has visited `pos` pages without success. */
  function RunAt(list: seq<nat>, pos: nat, n: nat): (run: nat)
    requires pos <= |list| && n > 0
    ensures run <= pos
  {
    if pos == 0 then 0 else Next(list, pos - 1, RunAt(list, pos - 1, n), n)
  }

  lemma {:induction false} RunAtFollows(list: seq<nat>, pos: nat, n: nat)
    requires pos <= |list| && n > 0
    ensures Following(list, pos, RunAt(list, pos, n), n)
  {
    hide Aligned, Consecutive;
    if pos > 0 {
      RunAtFollows(list, pos - 1, n);
      FollowOne(list, pos - 1, RunAt(list, pos - 1, n), n);
    }
  }

  /** A failing search passes through every position. */
  lemma {:induction false} NothingFound(list: seq<nat>, pos: nat, n: nat)
    requires n > 0 && pos <= |list| && Search(list, 0, 0, n) == None
    ensures RunAt(list, pos, n) < n && Search(list, pos, RunAt(list, pos, n), n) == None
  {
    hide Aligned;
    if pos > 0 {
      NothingFound(list, pos - 1, n);
    }
  }

  /** A run that is looked at from its start is followed to its end. */
  lemma {:induction false} RunGrows(list: seq<nat>, i: nat, j: nat, n: nat)
    requires n > 0 && IsRun(list, i, n) && RunAt(list, i, n) == 0 && j <= n
    ensures RunAt(list, i + j, n) == j
  {
    hide Aligned;
    if j > 0 {
      RunGrows(list, i, j - 1, n);
      assert list[i + j - 1] == list[i..i + n][j - 1];
      if j > 1 {
        assert list[i + j - 2] == list[i..i + n][j - 2];
      }
    }
  }

  lemma {:induction false} RunStart(list: seq<nat>, pos: nat, n: nat)
    requires n > 0 && pos <= |list|
    ensures RunAt(list, pos - RunAt(list, pos, n), n) == 0
  {
    hide Aligned;
    if pos > 0 {
      RunStart(list, pos - 1, n);
    }
  }

  /** The search succeeds at a position where no run was being followed. */
  lemma {:induction false} FoundAtStart(list: seq<nat>, pos: nat, n: nat)
    requires n > 0 && pos <= |list| && RunAt(list, pos, n) < n
    ensures var r := Search(list, pos, RunAt(list, pos, n), n);
            r.Some? ==> r.value + n <= |list| && RunAt(list, r.value, n) == 0
    decreases |list| - pos
  {
    hide Aligned;
    if pos < |list| {
      RunStart(list, pos, n);
      if RunAt(list, pos + 1, n) < n {
        FoundAtStart(list, pos + 1, n);
      }
    }
  }

  /** The search of alloc_pages. */
  function FindRun(list: seq<nat>, n: nat): (r: Option<nat>)
    requires n > 0
    ensures r.Some? ==> IsRun(list, r.value, n)
  {
    SearchFinds(list, 0, 0, n);
    Search(list, 0, 0, n)
  }

  lemma RunAtNone(list: seq<nat>, n: nat)
    requires n > 0
    ensures RunAt(list, 0, n) == 0
  {}

  /**
   Exactly when the search fails: every aligned run of `n` consecutive pages starts at a page
   that was compared as the continuation of another run, and rejected.
   */
  lemma FindRunFails(list: seq<nat>, n: nat)
    requires n > 0
    ensures FindRun(list, n) == None <==> forall i: nat :: IsRun(list, i, n) ==> RunAt(list, i, n) > 0
  {
    hide Search, RunAt;
    RunAtNone(list, n);
    if FindRun(list, n) == None {
      forall i: nat | IsRun(list, i, n)
        ensures RunAt(list, i, n) > 0
      {
        if RunAt(list, i, n) == 0 {
          RunGrows(list, i, n, n);
          NothingFound(list, i + n, n);
        }
      }
    } else {
      FoundAtStart(list, 0, n);
      assert IsRun(list, FindRun(list, n).value, n);
    }
  }

  /** Two aligned pages less than `n` pages apart are the same page. */
  lemma ApartByRun(p: nat, q: nat, run: nat, n: nat)
    requires n > 0 && run < n && q == p + run * PAGE_SIZE && Aligned(p, n) && Aligned(q, n)
    ensures run == 0
  {
    var size := n * PAGE_SIZE;
    MulMono(run + 1, n, PAGE_SIZE);
    assert p == p / size * size;
    DivIs(q, p / size, size);
  }

  /** On one block of consecutive pages the search is complete. */
  lemma BlockHasRun(list: seq<nat>, i: nat, n: nat)
    requires n > 0 && IsRun(list, i, n) && Consecutive(list, 0, |list|)
    ensures FindRun(list, n).Some?
  {
    hide Search, RunAt;
    FindRunFails(list, n);
    if FindRun(list, n) == None {
      var run := RunAt(list, i, n);
      NothingFound(list, i, n);
      RunAtFollows(list, i, n);
      var s := i - run;
      assert list[s] == list[0..|list|][s] && list[i] == list[0..|list|][i];
      ApartByRun(list[s], list[i], run, n);
    }
  }

  /** In general it is not: page 4 ends the run that starts at page 2, and is not taken as a new start. */
  lemma RunOverlooked()
    ensures var list := [2 * PAGE_SIZE, 4 * PAGE_SIZE, 5 * PAGE_SIZE];
            IsRun(list, 1, 2) && FindRun(list, 2) == None
  {
    var list := [2 * PAGE_SIZE, 4 * PAGE_SIZE, 5 * PAGE_SIZE];
    assert list[1..3] == Block(4 * PAGE_SIZE, 2);
    assert Search(list, 3, 0, 2) == None;
    assert Search(list, 2, 0, 2) == None;
    assert Search(list, 1, 1, 2) == None;
  }
}
