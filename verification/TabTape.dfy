/**
  What the user can rely on across several steps: the two hooks together behave like
  a tape of tabs with a cursor, and back undoes navigate.
 */
module TabTape {
  import opened Prelude
  import opened TabIds
  import opened TabHistory

  // ----- the tape: no hashes, no state objects, no refs -----

  datatype Cell = Cell(tab: string, marker: bool)
  datatype Tape = Tape(cells: seq<Cell>, at: nat, open: bool)

  ghost function Cells(cfg: Config, entries: seq<Entry>): (r: seq<Cell>)
    ensures |r| == |entries|
    ensures forall i :: 0 <= i < |r| ==> r[i] == Cell(Restore(cfg, entries[i]), entries[i].sheet)
  {
    seq(|entries|, i requires 0 <= i < |entries| => Cell(Restore(cfg, entries[i]), entries[i].sheet))
  }

  ghost function TapeOf(cfg: Config, s: Sys): Tape {
    Tape(Cells(cfg, s.entries), s.cur, s.open)
  }

  ghost predicate Fits(t: Tape) {
    && t.at < |t.cells|
    && forall i :: 0 <= i < |t.cells| && t.cells[i].marker ==> i > 0 && t.cells[i].tab == t.cells[i - 1].tab
  }

  ghost function Write(t: Tape, c: Cell): Tape
    requires Fits(t)
  {
    t.(cells := t.cells[..t.at + 1] + [c], at := t.at + 1)
  }

  /** The reference machine. `stays` says that a fragment edit kept the URL. */
  ghost function TapeStep(cfg: Config, t: Tape, e: Step, stays: bool): Tape
    requires Fits(t) && (e.Traverse? ==> e.to < |t.cells|)
  {
    var tab := t.cells[t.at].tab;
    match e
    case Reload => t.(open := false)
    case Render => t
    case Navigate(id) =>
      if Resolve(cfg, Some(id)) == tab then t else Write(t, Cell(Resolve(cfg, Some(id)), false))
    case Traverse(to) => t.(at := to, open := false)
    case Edit(hash, pops) =>
      var t' := if stays then t.(cells := t.cells[t.at := Cell(tab, false)])
                else Write(t, Cell(Resolve(cfg, TabFromHash(hash)), false));
      if pops then t'.(open := false) else t'
    case OpenSheet => Write(t, Cell(tab, true)).(open := true)
    case CloseSheet =>
      if t.cells[t.at].marker then t.(at := t.at - 1, open := false) else t.(open := false)
  }

  lemma InvFits(cfg: Config, s: Sys)
    requires Inv(cfg, s)
    ensures Fits(TapeOf(cfg, s))
  {
    forall i | 0 <= i < |s.entries| && s.entries[i].sheet
      ensures i > 0 && Restore(cfg, s.entries[i]) == Restore(cfg, s.entries[i - 1])
    {
      assert MarkerFits(cfg, s.entries, i);
    }
  }

  /**
    Every step of the real machine is that step of the tape, and the tab shown is the
    one under the cursor. In particular a reload is invisible and loses nothing.
   */
  lemma StepRefinesTape(cfg: Config, s: Sys, e: Step)
    requires Inv(cfg, s) && Enabled(s, e) && WellFormed(cfg, e)
    requires e.Navigate? ==> s.shownRef == s.active
    ensures Fits(TapeOf(cfg, s))
    ensures TapeOf(cfg, Apply(cfg, s, e)) ==
            TapeStep(cfg, TapeOf(cfg, s), e, e.Edit? && e.hash == s.entries[s.cur].hash)
    ensures Apply(cfg, s, e).active == TapeOf(cfg, Apply(cfg, s, e)).cells[Apply(cfg, s, e).cur].tab
  {
    InvFits(cfg, s);
    StepKeepsInv(cfg, s, e);
    var here, t := s.entries[s.cur], Apply(cfg, s, e);
    assert AgreesAt(cfg, s.entries, s.cur);
    match e
    case Reload =>
      SeedingKeepsTab(cfg, here);
      assert Cells(cfg, t.entries) == Cells(cfg, s.entries);
    case Navigate(tab) =>
      if t != s { WritingRefines(cfg, s, t.entries[t.cur], Cell(t.active, false)); }
    case Edit(hash, pops) =>
      var entry := Entry(hash, None, false, Edited);
      if hash == here.hash {
        assert Cells(cfg, t.entries) == Cells(cfg, s.entries)[s.cur := Cell(s.active, false)];
      } else {
        WritingRefines(cfg, s, entry, Cell(Resolve(cfg, TabFromHash(hash)), false));
      }
    case OpenSheet =>
      WritingRefines(cfg, s, t.entries[t.cur], Cell(s.active, true));
    case _ =>
  }

  lemma WritingRefines(cfg: Config, s: Sys, e: Entry, c: Cell)
    requires Inv(cfg, s) && c == Cell(Restore(cfg, e), e.sheet)
    ensures Fits(TapeOf(cfg, s))
    ensures TapeOf(cfg, Push(s, e)) == Write(TapeOf(cfg, s), c)
  {
    InvFits(cfg, s);
    assert Cells(cfg, Push(s, e).entries) == Cells(cfg, s.entries)[..s.cur + 1] + [c];
  }

  // ----- navigating n times and going back -----

  function NavigateAll(cfg: Config, s: Sys, tabs: seq<string>): Sys
    requires s.cur < |s.entries|
    decreases |tabs|
  {
    if tabs == [] then s else NavigateAll(cfg, NavigateTo(cfg, s, tabs[0]), tabs[1..])
  }

  /** How often the resolved tab changes along the calls. */
  function Changes(cfg: Config, from: string, tabs: seq<string>): (n: nat)
    ensures n <= |tabs|
    decreases |tabs|
  {
    if tabs == [] then 0
    else
      var next := Resolve(cfg, Some(tabs[0]));
      (if next == from then 0 else 1) + Changes(cfg, next, tabs[1..])
  }

  function Times<T>(f: T -> T, n: nat, x: T): T {
    if n == 0 then x else Times(f, n - 1, f(x))
  }

  ghost predicate Leads<T>(f: T -> T, path: seq<T>, i: nat)
    requires i + 1 < |path|
  {
    f(path[i]) == path[i + 1]
  }

  lemma {:induction false} TimesFollows<T>(f: T -> T, path: seq<T>)
    requires path != [] && forall i :: 0 <= i < |path| - 1 ==> Leads(f, path, i)
    ensures Times(f, |path| - 1, path[0]) == path[|path| - 1]
  {
    if |path| > 1 {
      assert Leads(f, path, 0);
      forall i | 0 <= i < |path| - 2 ensures Leads(f, path[1..], i) {
        assert Leads(f, path, i + 1);
      }
      TimesFollows(f, path[1..]);
    }
  }

  /** One back press; on the first entry it does nothing here. */
  function Back(cfg: Config): Sys -> Sys {
    (s: Sys) => if 0 < s.cur < |s.entries| then PopTo(cfg, s, s.cur - 1) else s
  }

  /** One back press at a time, `n` of them. */
  function BackBy(cfg: Config, s: Sys, n: nat): Sys
    requires n <= s.cur < |s.entries|
  {
    Times(Back(cfg), n, s)
  }

  ghost predicate CallsWellFormed(cfg: Config, tabs: seq<string>) {
    forall i :: 0 <= i < |tabs| ==> IsTabId(Resolve(cfg, Some(tabs[i])))
  }

  /** What a burst of calls from `s` to `t` did to the list. */
  ghost predicate Burst(cfg: Config, s: Sys, t: Sys, pushed: nat) {
    && s.cur < |s.entries| && t.cur < |t.entries|
    && t.cur == s.cur + pushed && t.open == s.open
    && (if pushed == 0 then t == s else |t.entries| == t.cur + 1)
    && (forall i :: 0 <= i <= s.cur ==> t.entries[i] == s.entries[i])
    && (forall i :: s.cur < i <= t.cur ==> Restore(cfg, t.entries[i]) != Restore(cfg, t.entries[i - 1]))
  }

  lemma BurstsCompose(cfg: Config, s: Sys, m: Sys, t: Sys, a: nat, b: nat)
    requires Burst(cfg, s, m, a) && Burst(cfg, m, t, b)
    ensures Burst(cfg, s, t, a + b)
  {
    forall i | s.cur < i <= t.cur
      ensures Restore(cfg, t.entries[i]) != Restore(cfg, t.entries[i - 1])
    {
      if i <= m.cur {
        assert t.entries[i] == m.entries[i] && t.entries[i - 1] == m.entries[i - 1];
      }
    }
  }

  /** One call pushes one entry when the tab changes, and otherwise does nothing. */
  lemma NavigationPushes(cfg: Config, s: Sys, tab: string)
    requires Inv(cfg, s) && s.shownRef == s.active && IsTabId(Resolve(cfg, Some(tab)))
    ensures var t := NavigateTo(cfg, s, tab);
            && Inv(cfg, t) && t.shownRef == t.active == Resolve(cfg, Some(tab))
            && Burst(cfg, s, t, if Resolve(cfg, Some(tab)) == s.active then 0 else 1)
  {
    StepKeepsInv(cfg, s, Navigate(tab));
    var t := NavigateTo(cfg, s, tab);
    assert t.active == Restore(cfg, t.entries[t.cur]);
  }

  /**
    n calls push exactly one entry per change of tab, hence at most n, each restoring
    another tab than the one beneath it, and leave everything below as it was.
   */
  lemma {:induction false} NavigationsPush(cfg: Config, s: Sys, tabs: seq<string>)
    requires Inv(cfg, s) && s.shownRef == s.active && CallsWellFormed(cfg, tabs)
    ensures var t := NavigateAll(cfg, s, tabs);
            && Inv(cfg, t) && t.shownRef == t.active
            && Burst(cfg, s, t, Changes(cfg, s.active, tabs))
            && t.active == if tabs == [] then s.active else Resolve(cfg, Some(tabs[|tabs| - 1]))
    decreases |tabs|
  {
    if tabs != [] {
      NavigationPushes(cfg, s, tabs[0]);
      var m := NavigateTo(cfg, s, tabs[0]);
      NavigationsPush(cfg, m, tabs[1..]);
      BurstsCompose(cfg, s, m, NavigateAll(cfg, m, tabs[1..]),
                    if m.active == s.active then 0 else 1, Changes(cfg, m.active, tabs[1..]));
    }
  }

  lemma OneBack(cfg: Config, s: Sys, i: nat)
    requires 0 < i < |s.entries| && AgreesAt(cfg, s.entries, i - 1)
    ensures Back(cfg)(At(cfg, s, i)) == At(cfg, s, i - 1)
    ensures i == s.cur ==> Back(cfg)(s) == At(cfg, s, i - 1)
  {
    PopToIsAt(cfg, At(cfg, s, i), i - 1);
    if i == s.cur { PopToIsAt(cfg, s, i - 1); }
  }

  /** The states that back presses pass through. */
  ghost function WayBack(cfg: Config, s: Sys, n: nat): (path: seq<Sys>)
    requires n <= s.cur < |s.entries|
    ensures |path| == n + 1 && path[0] == s
    ensures forall k :: 0 < k <= n ==> path[k] == At(cfg, s, s.cur - k)
  {
    seq(n + 1, k requires 0 <= k <= n => if k == 0 then s else At(cfg, s, s.cur - k))
  }

  lemma OnTheWayBack(cfg: Config, s: Sys, n: nat, k: nat)
    requires k < n <= s.cur < |s.entries|
    requires forall i :: 0 <= i < |s.entries| ==> AgreesAt(cfg, s.entries, i)
    ensures Leads(Back(cfg), WayBack(cfg, s, n), k)
  {
    assert AgreesAt(cfg, s.entries, s.cur - k - 1);
    OneBack(cfg, s, s.cur - k);
  }

  /** Going back never touches the list, and shows what each entry restores. */
  lemma BackWalks(cfg: Config, s: Sys, n: nat)
    requires 0 < n <= s.cur < |s.entries|
    requires forall i :: 0 <= i < |s.entries| ==> AgreesAt(cfg, s.entries, i)
    ensures BackBy(cfg, s, n) == At(cfg, s, s.cur - n)
  {
    var path := WayBack(cfg, s, n);
    forall k | 0 <= k < n ensures Leads(Back(cfg), path, k) {
      OnTheWayBack(cfg, s, n, k);
    }
    TimesFollows(Back(cfg), path);
  }

  lemma BackMoves(cfg: Config, s: Sys, t: Sys, n: nat, k: nat)
    requires Inv(cfg, t) && Burst(cfg, s, t, n) && 0 < k <= n
    ensures BackBy(cfg, t, k).active == Restore(cfg, t.entries[t.cur - k])
    ensures BackBy(cfg, t, k).active != BackBy(cfg, t, k - 1).active
  {
    BackWalks(cfg, t, k);
    if k > 1 { BackWalks(cfg, t, k - 1); }
    assert t.entries[t.cur - k] == t.entries[(t.cur - (k - 1)) - 1];
  }

  /** Going back as often as entries were pushed returns to the start; each press shows another tab. */
  lemma BackUndoesNavigations(cfg: Config, s: Sys, tabs: seq<string>)
    requires Inv(cfg, s) && s.shownRef == s.active && CallsWellFormed(cfg, tabs)
    ensures var t := NavigateAll(cfg, s, tabs);
            var n := Changes(cfg, s.active, tabs);
            && n <= t.cur < |t.entries|
            && BackBy(cfg, t, n) == (if n == 0 then s else t.(cur := s.cur, active := s.active, open := false))
            && forall k :: 0 < k <= n ==> BackBy(cfg, t, k).active != BackBy(cfg, t, k - 1).active
  {
    NavigationsPush(cfg, s, tabs);
    BackFromBurst(cfg, s, NavigateAll(cfg, s, tabs), Changes(cfg, s.active, tabs));
  }

  lemma BackFromBurst(cfg: Config, s: Sys, t: Sys, n: nat)
    requires Synced(cfg, s) && Inv(cfg, t) && Burst(cfg, s, t, n)
    ensures BackBy(cfg, t, n) == (if n == 0 then s else t.(cur := s.cur, active := s.active, open := false))
    ensures forall k :: 0 < k <= n ==> BackBy(cfg, t, k).active != BackBy(cfg, t, k - 1).active
  {
    if n > 0 { BackWalks(cfg, t, n); }
    forall k | 0 < k <= n
      ensures BackBy(cfg, t, k).active != BackBy(cfg, t, k - 1).active
    {
      BackMoves(cfg, s, t, n, k);
    }
  }

  /**
    A marker at or below the cursor while no sheet is open: the back press that
    leaves it shows the tab that was already shown.
   */
  lemma StrandedMarkerIsSilent(cfg: Config, s: Sys, i: nat)
    requires Inv(cfg, s) && i <= s.cur && s.entries[i].sheet
    ensures i > 0 && BackBy(cfg, s, s.cur - i + 1).active == BackBy(cfg, s, s.cur - i).active
  {
    assert MarkerFits(cfg, s.entries, i);
    BackWalks(cfg, s, s.cur - i + 1);
    if i < s.cur { BackWalks(cfg, s, s.cur - i); }
  }

  /** Leaving an entry, to anywhere on the list, and coming back to it. */
  lemma TravelAndReturn(cfg: Config, s: Sys, to: nat)
    requires Inv(cfg, s) && Enabled(s, Traverse(to))
    ensures var there := Apply(cfg, s, Traverse(to));
            && Enabled(there, Traverse(s.cur))
            && Apply(cfg, there, Traverse(s.cur)) == s.(open := false)
  {
    StepKeepsInv(cfg, s, Traverse(to));
    StepKeepsInv(cfg, Apply(cfg, s, Traverse(to)), Traverse(s.cur));
  }
}
