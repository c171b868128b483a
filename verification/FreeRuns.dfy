/** Searching the address space for a run of pages that are not present. */
module FreeRuns {
  import opened Entries
  import opened Pages
  import opened PageTree

  /** The pages first..=last, as the page iterator holds them. */
  datatype Run = Run(first: nat, last: nat)

  /** No page of first..first+n is present. */
  predicate RunFree(mem: Memory, root: Frame, first: nat, n: nat)
    requires first + n <= MAX_PAGE
  {
    forall c | first <= c < first + n :: !IsPresent(mem, root, c)
  }

  /** The simple search: try every starting page in turn. */
  function FirstRun(mem: Memory, root: Frame, start: nat, n: nat): Option<Run>
    requires n >= 1
    decreases MAX_PAGE - start
  {
    if start + n > MAX_PAGE then None
    else if RunFree(mem, root, start, n) then Some(Run(start, start + n - 1))
    else FirstRun(mem, root, start + 1, n)
  }

  /** A run of `n` free pages starting at `first` lies in the address space, at or after `start`. */
  predicate FreeRunAt(mem: Memory, root: Frame, start: nat, n: nat, first: nat) {
    start <= first && first + n <= MAX_PAGE && RunFree(mem, root, first, n)
  }

  /** The search answers the earliest free run, and nothing exactly when there is none. */
  lemma {:induction false} FirstRunIsEarliest(mem: Memory, root: Frame, start: nat, n: nat)
    requires n >= 1
    ensures match FirstRun(mem, root, start, n)
            case Some(run) =>
              && FreeRunAt(mem, root, start, n, run.first) && run.last == run.first + n - 1
              && forall first: nat | FreeRunAt(mem, root, start, n, first) :: run.first <= first
            case None => forall first: nat :: !FreeRunAt(mem, root, start, n, first)
    decreases MAX_PAGE - start
  {
    if start + n <= MAX_PAGE && !RunFree(mem, root, start, n) {
      FirstRunIsEarliest(mem, root, start + 1, n);
      forall first: nat | FreeRunAt(mem, root, start, n, first)
        ensures FreeRunAt(mem, root, start + 1, n, first)
      {
      }
    }
  }

  /** `find_free_pages`. Asked for no pages at all, the code answers the starting page, provided it
      IS present. */
  function FindFree(mem: Memory, root: Frame, start: nat, n: nat): Option<Run>
    requires start < MAX_PAGE
  {
    if n == 0 then (if IsPresent(mem, root, start) then Some(Run(start, start)) else None)
    else FirstRun(mem, root, start, n)
  }

  /** A run containing an occupied page can be skipped up to the page after it. */
  lemma {:induction false} SkipOccupied(mem: Memory, root: Frame, start: nat, n: nat, busy: nat)
    requires n >= 1 && start <= busy < MAX_PAGE && busy < start + n && IsPresent(mem, root, busy)
    ensures FirstRun(mem, root, start, n) == FirstRun(mem, root, busy + 1, n)
    decreases busy - start
  {
    if start + n <= MAX_PAGE {
      assert !RunFree(mem, root, start, n);
      if start < busy {
        SkipOccupied(mem, root, start + 1, n, busy);
      }
    } else {
      assert busy + 1 + n > MAX_PAGE;
    }
  }

  /** Where the one-pass search stands: `free` consecutive free pages end at `page`, the first of
      them `first`, and no run starting earlier is left to find. */
  ghost predicate Searching(mem: Memory, root: Frame, start: nat, n: nat, first: nat, free: nat, page: nat)
    requires n >= 1
  {
    && start <= page < MAX_PAGE && free <= n
    && (free > 0 ==> first + free == page + 1 && RunFree(mem, root, first, free))
    && FirstRun(mem, root, start, n) == FirstRun(mem, root, if free > 0 then first else page + 1, n)
  }

  lemma SearchStarts(mem: Memory, root: Frame, start: nat, n: nat)
    requires n >= 1 && start < MAX_PAGE
    ensures Searching(mem, root, start, n, start, if IsPresent(mem, root, start) then 0 else 1, start)
  {
    if IsPresent(mem, root, start) {
      SkipOccupied(mem, root, start, n, start);
    }
  }

  lemma SearchFree(mem: Memory, root: Frame, start: nat, n: nat, first: nat, free: nat, page: nat)
    requires n >= 1 && Searching(mem, root, start, n, first, free, page) && free < n
    requires page + 1 < MAX_PAGE && !IsPresent(mem, root, page + 1)
    ensures Searching(mem, root, start, n, if free == 0 then page + 1 else first, free + 1, page + 1)
  {
  }

  lemma SearchBusy(mem: Memory, root: Frame, start: nat, n: nat, first: nat, free: nat, page: nat)
    requires n >= 1 && Searching(mem, root, start, n, first, free, page) && free < n
    requires page + 1 < MAX_PAGE && IsPresent(mem, root, page + 1)
    ensures Searching(mem, root, start, n, first, 0, page + 1)
  {
    hide IsPresent, RunFree;
    SkipOccupied(mem, root, if free > 0 then first else page + 1, n, page + 1);
  }

  lemma SearchEnds(mem: Memory, root: Frame, start: nat, n: nat, first: nat, free: nat, page: nat)
    requires n >= 1 && Searching(mem, root, start, n, first, free, page)
    requires free == n || page + 1 == MAX_PAGE
    ensures FirstRun(mem, root, start, n) == if free == n then Some(Run(first, page)) else None
  {
  }

  /** `find_free_pages` as written: one pass that counts consecutive free pages. */
  method FindFreePages(mem: Memory, root: Frame, start: nat, n: nat) returns (r: Option<Run>)
    requires start < MAX_PAGE
    ensures r == FindFree(mem, root, start, n)
  {
    var first: nat := start;
    var free: nat := if IsPresent(mem, root, first) then 0 else 1;
    var page: nat := first;
    if n >= 1 {
      SearchStarts(mem, root, start, n);
    }
    while free < n && Next(page).Some?
      invariant n == 0 ==> first == page == start && free == if IsPresent(mem, root, start) then 0 else 1
      invariant n >= 1 ==> Searching(mem, root, start, n, first, free, page)
      invariant page < MAX_PAGE
      decreases MAX_PAGE - page
    {
      var next := Next(page).value;
      if !IsPresent(mem, root, next) {
        SearchFree(mem, root, start, n, first, free, page);
        if free == 0 {
          first := next;
        }
        free := free + 1;
      } else {
        SearchBusy(mem, root, start, n, first, free, page);
        free := 0;
      }
      page := next;
    }
    if n >= 1 {
      SearchEnds(mem, root, start, n, first, free, page);
    }
    if free == n {
      r := Some(Run(first, page));
    } else {
      r := None;
    }
  }
}
