/**
  When the marker entries of `useSheetBackDismiss` stay out of the way of the back
  button, and which steps strand one.
 */
module SheetDiscipline {
  import opened Prelude
  import opened TabIds
  import opened TabHistory

  /** A marker lies at or below the cursor without belonging to an open sheet there. */
  ghost predicate Stranded(s: Sys) {
    exists i :: 0 <= i <= s.cur && i < |s.entries| && s.entries[i].sheet && !(s.open && i == s.cur)
  }

  /** Only the last entry can be a marker, and at the cursor only under an open sheet. */
  ghost predicate Clean(s: Sys) {
    && s.cur < |s.entries|
    && (forall i :: 0 <= i < |s.entries| && s.entries[i].sheet ==> i == |s.entries| - 1)
    && (s.entries[s.cur].sheet ==> s.open)
  }

  /** Steps that strand a marker, decided before the step is taken. */
  predicate Strands(cfg: Config, s: Sys, e: Step)
    requires s.cur < |s.entries|
  {
    var onMarker := s.entries[s.cur].sheet;
    match e
    case Reload => onMarker
    case Navigate(tab) => onMarker && Resolve(cfg, Some(tab)) != s.shownRef
    case Edit(hash, _) => onMarker && hash != s.entries[s.cur].hash
    case Traverse(to) => to < |s.entries| && s.entries[to].sheet
    case _ => false
  }

  /** From a clean state exactly these steps strand a marker; every other step leads to a clean state. */
  lemma StepStrandsIff(cfg: Config, s: Sys, e: Step)
    requires Inv(cfg, s) && Clean(s) && Enabled(s, e)
    ensures Stranded(Apply(cfg, s, e)) <==> Strands(cfg, s, e)
    ensures Clean(Apply(cfg, s, e)) <==> !Strands(cfg, s, e)
  {
    StepStaysCleanIff(cfg, s, e);
    var t := Apply(cfg, s, e);
    if Strands(cfg, s, e) {
      var i := if e.Navigate? || e.Edit? then s.cur else t.cur;
      assert t.entries[i].sheet;
    }
  }

  lemma PushCleanIff(s: Sys, e: Entry, t: Sys)
    requires Clean(s) && t.entries == Push(s, e).entries && t.cur == s.cur + 1
    ensures Clean(t) <==> !s.entries[s.cur].sheet && (e.sheet ==> t.open)
  {
    assert t.entries[s.cur] == s.entries[s.cur] && t.entries[t.cur] == e;
  }

  lemma ReplaceCleanIff(s: Sys, e: Entry, t: Sys)
    requires Clean(s) && t.entries == Replace(s, e).entries && t.cur == s.cur
    requires e.sheet ==> s.entries[s.cur].sheet
    ensures Clean(t) <==> (e.sheet ==> t.open)
  {
    assert forall i :: 0 <= i < |s.entries| && t.entries[i].sheet ==> s.entries[i].sheet;
  }

  lemma StepStaysCleanIff(cfg: Config, s: Sys, e: Step)
    requires Inv(cfg, s) && Clean(s) && Enabled(s, e)
    ensures Clean(Apply(cfg, s, e)) <==> !Strands(cfg, s, e)
  {
    var here, t := s.entries[s.cur], Apply(cfg, s, e);
    match e
    case Reload => ReplaceCleanIff(s, Seeded(cfg, here), t);
    case Navigate(_) => if t != s { PushCleanIff(s, t.entries[t.cur], t); }
    case Edit(hash, _) =>
      var entry := Entry(hash, None, false, Edited);
      if hash == here.hash { ReplaceCleanIff(s, entry, t); } else { PushCleanIff(s, entry, t); }
    case OpenSheet => PushCleanIff(s, t.entries[t.cur], t);
    case _ =>
  }

  ghost predicate Disciplined(cfg: Config, s: Sys, steps: seq<Step>)
    decreases |steps|
  {
    steps == [] ||
    (Enabled(s, steps[0]) && WellFormed(cfg, steps[0]) && !Strands(cfg, s, steps[0]) &&
     Disciplined(cfg, Apply(cfg, s, steps[0]), steps[1..]))
  }

  lemma {:induction false} DisciplinedRunStaysClean(cfg: Config, s: Sys, steps: seq<Step>)
    requires Inv(cfg, s) && Clean(s) && Disciplined(cfg, s, steps)
    ensures Admissible(cfg, s, steps) && Inv(cfg, Run(cfg, s, steps)) && Clean(Run(cfg, s, steps))
    ensures var t := Run(cfg, s, steps);
            forall i :: 0 <= i <= t.cur && t.entries[i].sheet ==> t.open && i == t.cur
    decreases |steps|
  {
    if steps != [] {
      StepKeepsInv(cfg, s, steps[0]);
      StepStrandsIff(cfg, s, steps[0]);
      DisciplinedRunStaysClean(cfg, Apply(cfg, s, steps[0]), steps[1..]);
    }
  }

  // ----- opening and dismissing -----

  /**
    Opening a sheet and dismissing it, by the back button or by any close control,
    gives back cursor, tab and every entry up to the cursor; only the dead marker
    above it remains of the round trip.
   */
  lemma DismissUndoesOpen(cfg: Config, s: Sys)
    requires Inv(cfg, s) && !s.open
    ensures var raised := Apply(cfg, s, OpenSheet);
            && raised.active == s.active
            && Enabled(raised, CloseSheet) && Enabled(raised, Traverse(s.cur))
            && Apply(cfg, raised, CloseSheet) == Apply(cfg, raised, Traverse(s.cur))
            && Apply(cfg, raised, CloseSheet) ==
               s.(entries := s.entries[..s.cur + 1] + [s.entries[s.cur].(sheet := true, origin := Opened)])
  {
    var raised := Apply(cfg, s, OpenSheet);
    assert raised.entries[s.cur] == s.entries[s.cur];
  }

  /** Opening again after a dismissal reuses the slot: the list does not grow with each visit. */
  lemma ReopeningDoesNotGrow(cfg: Config, s: Sys)
    requires Inv(cfg, s) && !s.open
    ensures var once := Apply(cfg, Apply(cfg, s, OpenSheet), CloseSheet);
            && Enabled(once, OpenSheet)
            && Apply(cfg, Apply(cfg, once, OpenSheet), CloseSheet) == once
  {
    DismissUndoesOpen(cfg, s);
    var once := Apply(cfg, Apply(cfg, s, OpenSheet), CloseSheet);
    StepKeepsInv(cfg, s, OpenSheet);
    StepKeepsInv(cfg, Apply(cfg, s, OpenSheet), CloseSheet);
    assert Inv(cfg, once);
    DismissUndoesOpen(cfg, once);
    assert once.entries[s.cur] == s.entries[s.cur];
    assert once.entries[..s.cur + 1] == s.entries[..s.cur + 1];
  }

  // ----- back presses -----

  /** Entry `i` restores another tab than the entry beneath it. */
  ghost predicate Moves(cfg: Config, entries: seq<Entry>, i: nat)
    requires 0 < i < |entries|
  {
    Restore(cfg, entries[i]) != Restore(cfg, entries[i - 1])
  }

  /** The entries `navigate` pushed or, with `pages`, all that are no markers. */
  predicate Counts(e: Entry, pages: bool) {
    if pages then !e.sheet else e.origin == Navigated
  }

  ghost predicate AllMove(cfg: Config, s: Sys, pages: bool) {
    forall i {:trigger Moves(cfg, s.entries, i)} ::
      0 < i < |s.entries| && Counts(s.entries[i], pages) ==> Moves(cfg, s.entries, i)
  }

  lemma PushMovesIff(cfg: Config, s: Sys, e: Entry, pages: bool)
    requires s.cur < |s.entries| && AllMove(cfg, s, pages)
    ensures AllMove(cfg, Push(s, e), pages) <==>
              (Counts(e, pages) ==> Restore(cfg, e) != Restore(cfg, s.entries[s.cur]))
  {
    var t := Push(s, e);
    assert t.entries[t.cur] == e && t.entries[t.cur - 1] == s.entries[s.cur];
    assert Moves(cfg, t.entries, t.cur) <==> Restore(cfg, e) != Restore(cfg, s.entries[s.cur]);
    forall i | 0 < i < t.cur && Counts(t.entries[i], pages) ensures Moves(cfg, t.entries, i) {
      assert t.entries[i] == s.entries[i] && t.entries[i - 1] == s.entries[i - 1];
      assert Moves(cfg, s.entries, i);
    }
  }

  lemma ReplaceMovesIff(cfg: Config, s: Sys, e: Entry, pages: bool)
    requires s.cur < |s.entries| && AllMove(cfg, s, pages)
    requires Restore(cfg, e) == Restore(cfg, s.entries[s.cur])
    ensures AllMove(cfg, Replace(s, e), pages) <==> (Counts(e, pages) && s.cur > 0 ==> Moves(cfg, s.entries, s.cur))
  {
    var t := Replace(s, e);
    forall i | 0 < i < |t.entries| ensures Moves(cfg, t.entries, i) <==> Moves(cfg, s.entries, i) {
      assert Restore(cfg, t.entries[i]) == Restore(cfg, s.entries[i]);
      assert Restore(cfg, t.entries[i - 1]) == Restore(cfg, s.entries[i - 1]);
    }
    assert t.entries[s.cur] == e;
  }

  /** A call made before the last change of tab was rendered, for the tab that is already active. */
  predicate Unsettled(cfg: Config, s: Sys, e: Step) {
    e.Navigate? && Resolve(cfg, Some(e.tab)) != s.shownRef && Resolve(cfg, Some(e.tab)) == s.active
  }

  /** Steps that put a page on the list that restores the tab beneath it. */
  predicate Repeats(cfg: Config, s: Sys, e: Step)
    requires s.cur < |s.entries|
  {
    match e
    case Navigate(_) => Unsettled(cfg, s, e)
    case Edit(hash, _) =>
      if hash == s.entries[s.cur].hash then s.entries[s.cur].sheet else Resolve(cfg, TabFromHash(hash)) == s.active
    case _ => false
  }

  lemma StepMoves(cfg: Config, s: Sys, e: Step, pages: bool)
    requires Inv(cfg, s) && AllMove(cfg, s, pages) && Enabled(s, e) && WellFormed(cfg, e)
    ensures AllMove(cfg, Apply(cfg, s, e), pages) <==>
              !(if pages then Repeats(cfg, s, e) else Unsettled(cfg, s, e))
  {
    var here := s.entries[s.cur];
    assert AgreesAt(cfg, s.entries, s.cur) && MarkerFits(cfg, s.entries, s.cur);
    assert s.cur > 0 && Counts(here, pages) ==> Moves(cfg, s.entries, s.cur);
    match e
    case Reload =>
      SeedingKeepsTab(cfg, here);
      ReplaceMovesIff(cfg, s, Seeded(cfg, here), pages);
    case Navigate(tab) =>
      var next := Resolve(cfg, Some(tab));
      var entry := Entry("#" + next, Some(next), false, Navigated);
      WrittenEntry(cfg, entry, next);
      if next != s.shownRef { PushMovesIff(cfg, s, entry, pages); }
    case Edit(hash, _) =>
      var entry := Entry(hash, None, false, Edited);
      if hash == here.hash {
        ReplaceMovesIff(cfg, s, entry, pages);
      } else {
        PushMovesIff(cfg, s, entry, pages);
      }
    case OpenSheet =>
      PushMovesIff(cfg, s, here.(sheet := true, origin := Opened), pages);
    case _ =>
  }

  /** Entries pushed by `navigate` keep moving in every run, but for one unsettled call. */
  lemma NavigationsMoveIff(cfg: Config, s: Sys, e: Step)
    requires Inv(cfg, s) && AllMove(cfg, s, false) && Enabled(s, e) && WellFormed(cfg, e)
    ensures AllMove(cfg, Apply(cfg, s, e), false) <==> !Unsettled(cfg, s, e)
  {
    StepMoves(cfg, s, e, false);
  }

  /** All pages keep moving exactly until a step repeats the tab beneath. */
  lemma PagesMoveIff(cfg: Config, s: Sys, e: Step)
    requires Inv(cfg, s) && AllMove(cfg, s, true) && Enabled(s, e) && WellFormed(cfg, e)
    ensures AllMove(cfg, Apply(cfg, s, e), true) <==> !Repeats(cfg, s, e)
  {
    StepMoves(cfg, s, e, true);
  }

  /** Where pages move, a back press keeps the tab exactly when it leaves a marker. */
  lemma BackIsSilentIff(cfg: Config, s: Sys)
    requires Inv(cfg, s) && AllMove(cfg, s, true) && s.cur > 0
    ensures PopTo(cfg, s, s.cur - 1).active == s.active <==> s.entries[s.cur].sheet
  {
    BackShows(cfg, s);
    assert !s.entries[s.cur].sheet ==> Moves(cfg, s.entries, s.cur);
  }

  lemma BackShows(cfg: Config, s: Sys)
    requires Inv(cfg, s) && s.cur > 0
    ensures PopTo(cfg, s, s.cur - 1) == At(cfg, s, s.cur - 1)
    ensures At(cfg, s, s.cur - 1).active == s.active <==> !Moves(cfg, s.entries, s.cur)
    ensures s.entries[s.cur].sheet ==> !Moves(cfg, s.entries, s.cur)
  {
    assert MarkerFits(cfg, s.entries, s.cur) && AgreesAt(cfg, s.entries, s.cur - 1);
    PopToIsAt(cfg, s, s.cur - 1);
  }

  /** No marker is stranded, and the entries of `navigate` (with `strict`, all pages) move. */
  ghost predicate Good(cfg: Config, s: Sys, strict: bool) {
    Clean(s) && AllMove(cfg, s, false) && (strict ==> AllMove(cfg, s, true))
  }

  predicate Spoils(cfg: Config, s: Sys, e: Step, strict: bool)
    requires s.cur < |s.entries|
  {
    Strands(cfg, s, e) || Unsettled(cfg, s, e) || (strict && Repeats(cfg, s, e))
  }

  lemma StepStaysGoodIff(cfg: Config, s: Sys, e: Step, strict: bool)
    requires Inv(cfg, s) && Good(cfg, s, strict) && Enabled(s, e) && WellFormed(cfg, e)
    ensures Good(cfg, Apply(cfg, s, e), strict) <==> !Spoils(cfg, s, e, strict)
  {
    StepStaysCleanIff(cfg, s, e);
    NavigationsMoveIff(cfg, s, e);
    if strict { PagesMoveIff(cfg, s, e); }
  }

  /** A run without stranding steps and unsettled calls; with `strict`, also without repeated tabs. */
  ghost predicate Orderly(cfg: Config, s: Sys, steps: seq<Step>, strict: bool)
    decreases |steps|
  {
    steps == [] ||
    (Enabled(s, steps[0]) && WellFormed(cfg, steps[0]) && !Spoils(cfg, s, steps[0], strict) &&
     Orderly(cfg, Apply(cfg, s, steps[0]), steps[1..], strict))
  }

  ghost predicate GoodAllAlong(cfg: Config, s: Sys, steps: seq<Step>, strict: bool)
    requires Admissible(cfg, s, steps)
    decreases |steps|
  {
    Good(cfg, s, strict) && (steps == [] || GoodAllAlong(cfg, Apply(cfg, s, steps[0]), steps[1..], strict))
  }

  /** Steps looked at one by one before they are taken tell exactly whether a run stays good. */
  lemma {:induction false} OrderlyIff(cfg: Config, s: Sys, steps: seq<Step>, strict: bool)
    requires Inv(cfg, s) && Good(cfg, s, strict)
    ensures Orderly(cfg, s, steps, strict) <==> Admissible(cfg, s, steps) && GoodAllAlong(cfg, s, steps, strict)
    decreases |steps|
  {
    if steps != [] && Enabled(s, steps[0]) && WellFormed(cfg, steps[0]) {
      var t := Apply(cfg, s, steps[0]);
      StepKeepsInv(cfg, s, steps[0]);
      StepStaysGoodIff(cfg, s, steps[0], strict);
      if Good(cfg, t, strict) { OrderlyIff(cfg, t, steps[1..], strict); }
    }
  }

  lemma {:induction false} OrderlyRun(cfg: Config, s: Sys, steps: seq<Step>, strict: bool)
    requires Inv(cfg, s) && Good(cfg, s, strict) && Orderly(cfg, s, steps, strict)
    ensures Admissible(cfg, s, steps)
    ensures Inv(cfg, Run(cfg, s, steps)) && Good(cfg, Run(cfg, s, steps), strict)
    decreases |steps|
  {
    if steps != [] {
      StepKeepsInv(cfg, s, steps[0]);
      StepStaysGoodIff(cfg, s, steps[0], strict);
      OrderlyRun(cfg, Apply(cfg, s, steps[0]), steps[1..], strict);
    }
  }

  lemma GoodIsNeverSilent(cfg: Config, s: Sys, strict: bool)
    requires Inv(cfg, s) && Good(cfg, s, strict)
    requires s.cur > 0 && (strict || s.entries[s.cur].origin != Edited)
    ensures var t := Apply(cfg, s, Traverse(s.cur - 1));
            && t == At(cfg, s, s.cur - 1)
            && (t.active == s.active <==> s.entries[s.cur].sheet)
            && (s.entries[s.cur].sheet ==> s.open && !t.open)
  {
    BackShows(cfg, s);
    assert MarkerFits(cfg, s.entries, s.cur);
    assert !s.entries[s.cur].sheet ==> Moves(cfg, s.entries, s.cur);
  }

  /**
    The promise of both hooks. After any orderly run one back press changes the tab or
    dismisses the open sheet, from every entry that `navigate` pushed or a sheet opened;
    after a strictly orderly run, from every entry. It never does nothing.
   */
  lemma BackIsNeverSilent(cfg: Config, e: Entry, steps: seq<Step>, strict: bool)
    requires IsTabId(cfg.defaultTab) && Agrees(cfg, e) && !e.sheet && e.origin == Loaded
    requires Orderly(cfg, Mount(cfg, e), steps, strict)
    ensures Admissible(cfg, Mount(cfg, e), steps)
    ensures var s := Run(cfg, Mount(cfg, e), steps);
            0 < s.cur < |s.entries| && (strict || s.entries[s.cur].origin != Edited) ==>
              var t := Apply(cfg, s, Traverse(s.cur - 1));
              && t == At(cfg, s, s.cur - 1)
              && (t.active == s.active <==> s.entries[s.cur].sheet)
              && (s.entries[s.cur].sheet ==> s.open && !t.open)
  {
    var m := Mount(cfg, e);
    MountStartsInv(cfg, e);
    assert Good(cfg, m, strict);
    OrderlyRun(cfg, m, steps, strict);
    var s := Run(cfg, m, steps);
    if s.cur > 0 && (strict || s.entries[s.cur].origin != Edited) {
      GoodIsNeverSilent(cfg, s, strict);
    }
  }

  // ----- the discipline is needed -----

  lemma RunCons(cfg: Config, s: Sys, e: Step, rest: seq<Step>)
    requires Enabled(s, e) && WellFormed(cfg, e) && Admissible(cfg, Apply(cfg, s, e), rest)
    ensures Admissible(cfg, s, [e] + rest) && Run(cfg, s, [e] + rest) == Run(cfg, Apply(cfg, s, e), rest)
  {
    assert ([e] + rest)[1..] == rest;
  }

  /** The states on the way of a sheet that is navigated from, closed, and left by a back press. */
  lemma UnderSheet(cfg: Config, s: Sys, tab: string) returns (s1: Sys, s2: Sys, s3: Sys, s4: Sys)
    requires Inv(cfg, s) && !s.open && s.shownRef == s.active
    requires WellFormed(cfg, Navigate(tab)) && Resolve(cfg, Some(tab)) != s.active
    ensures s1 == Apply(cfg, s, OpenSheet) && Inv(cfg, s1)
    ensures s2 == Apply(cfg, s1, Navigate(tab))
    ensures Enabled(s2, CloseSheet) && s3 == Apply(cfg, s2, CloseSheet) && s4 == Apply(cfg, s3, Render)
    ensures s4.cur == s.cur + 2 < |s4.entries| && s4.entries[..s.cur + 2] == s1.entries && !s4.open
  {
    s1 := Apply(cfg, s, OpenSheet);
    s2 := Apply(cfg, s1, Navigate(tab));
    s3 := Apply(cfg, s2, CloseSheet);
    s4 := Apply(cfg, s3, Render);
    StepKeepsInv(cfg, s, OpenSheet);
  }

  lemma RunUnderSheet(cfg: Config, s: Sys, tab: string, s4: Sys, to: nat)
    requires Enabled(s, OpenSheet) && WellFormed(cfg, Navigate(tab))
    requires var s2 := Apply(cfg, Apply(cfg, s, OpenSheet), Navigate(tab));
             Enabled(s2, CloseSheet) && s4 == Apply(cfg, Apply(cfg, s2, CloseSheet), Render)
    requires Enabled(s4, Traverse(to))
    ensures var steps := [OpenSheet, Navigate(tab), CloseSheet, Render, Traverse(to)];
            Admissible(cfg, s, steps) && Run(cfg, s, steps) == Apply(cfg, s4, Traverse(to))
  {
    var s1 := Apply(cfg, s, OpenSheet);
    var s2 := Apply(cfg, s1, Navigate(tab));
    var s3 := Apply(cfg, s2, CloseSheet);
    var back := [Traverse(to)];
    RunCons(cfg, s4, Traverse(to), []);
    RunCons(cfg, s3, Render, back);
    RunCons(cfg, s2, CloseSheet, [Render] + back);
    RunCons(cfg, s1, Navigate(tab), [CloseSheet] + ([Render] + back));
    RunCons(cfg, s, OpenSheet, [Navigate(tab)] + ([CloseSheet] + ([Render] + back)));
    FiveSteps(OpenSheet, Navigate(tab), CloseSheet, Render, Traverse(to));
  }

  lemma FiveSteps(a: Step, b: Step, c: Step, d: Step, e: Step)
    ensures [a] + ([b] + ([c] + ([d] + ([e] + [])))) == [a, b, c, d, e]
    ensures [e] + [] == [e]
  {
  }

  /**
    Navigating from inside a sheet and closing it strands the marker, whatever the
    state it starts from: of the two back presses that follow, the second is silent.
   */
  lemma NavigatingUnderSheetStrands(cfg: Config, s: Sys, tab: string)
    requires Inv(cfg, s) && Clean(s) && !s.open && s.shownRef == s.active
    requires WellFormed(cfg, Navigate(tab)) && Resolve(cfg, Some(tab)) != s.active
    ensures var steps := [OpenSheet, Navigate(tab), CloseSheet, Render, Traverse(s.cur + 1)];
            && Admissible(cfg, s, steps)
            && var t := Run(cfg, s, steps);
               && t.cur == s.cur + 1 < |t.entries| && t.active == s.active && !t.open
               && PopTo(cfg, t, s.cur).active == t.active
  {
    var s1, s2, s3, s4 := UnderSheet(cfg, s, tab);
    RunUnderSheet(cfg, s, tab, s4, s.cur + 1);
    MarkerPopsBack(cfg, s1, s4, s.cur);
  }

  lemma MarkerPopsBack(cfg: Config, s1: Sys, s4: Sys, cur: nat)
    requires Inv(cfg, s1) && s1.cur == cur + 1 == |s1.entries| - 1 && s1.entries[cur + 1].sheet
    requires s4.cur == cur + 2 < |s4.entries| && s4.entries[..cur + 2] == s1.entries
    ensures var t := Apply(cfg, s4, Traverse(cur + 1));
            t.cur == cur + 1 && t.active == s1.active && !t.open && PopTo(cfg, t, cur).active == t.active
  {
    assert s4.entries[cur] == s1.entries[cur] && s4.entries[cur + 1] == s1.entries[cur + 1];
    assert AgreesAt(cfg, s1.entries, cur) && AgreesAt(cfg, s1.entries, cur + 1) && MarkerFits(cfg, s1.entries, cur + 1);
    PopToIsAt(cfg, s4, cur + 1);
    PopToIsAt(cfg, At(cfg, s4, cur + 1), cur);
  }

  /** Going forward onto the marker of a dismissed sheet: a visible press in neither direction. */
  lemma ForwardOntoMarkerIsSilent(cfg: Config, s: Sys)
    requires Inv(cfg, s) && Clean(s) && !s.open
    ensures var dismissed := Apply(cfg, Apply(cfg, s, OpenSheet), CloseSheet);
            && Enabled(dismissed, Traverse(s.cur + 1))
            && var t := Apply(cfg, dismissed, Traverse(s.cur + 1));
               t.active == s.active && !t.open && PopTo(cfg, t, s.cur).active == s.active && !Clean(t)
  {
    DismissUndoesOpen(cfg, s);
    var dismissed := Apply(cfg, Apply(cfg, s, OpenSheet), CloseSheet);
    StepKeepsInv(cfg, s, OpenSheet);
    StepKeepsInv(cfg, Apply(cfg, s, OpenSheet), CloseSheet);
    StepKeepsInv(cfg, dismissed, Traverse(s.cur + 1));
    assert MarkerFits(cfg, dismissed.entries, s.cur + 1);
  }
}
