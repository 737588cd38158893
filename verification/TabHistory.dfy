/**
  The tab that `useTabHistory` shows and the marker entries that
  `useSheetBackDismiss` pushes, over the one history list they share.

  A system state is a value here; `TabApp` holds the same state in fields and is
  proved to take exactly these steps.
 */
module TabHistory {
  import opened Prelude
  import opened TabIds

  /** What the hook is called with; no `isKnown` means every id is accepted. */
  datatype Config = Config(defaultTab: string, isKnown: Option<string -> bool>)

  /** Who created an entry. Bookkeeping of the model: no step looks at it. */
  datatype Origin = Loaded | Navigated | Edited | Opened

  /** One session history entry: location.hash and the state keys the hooks use. */
  datatype Entry = Entry(hash: string, tab: Option<string>, sheet: bool, origin: Origin)

  /**
    `active` is the React state, `shownRef` the ref that `navigate` compares with
    (it catches up when the component renders), `open` says whether a sheet is open.
   */
  datatype Sys = Sys(entries: seq<Entry>, cur: nat, active: string, shownRef: string, open: bool)

  // ----- the functions of the hook -----

  function Resolve(cfg: Config, tab: Option<string>): string {
    if tab.Some? && tab.value != "" && (cfg.isKnown.None? || cfg.isKnown.value(tab.value))
    then tab.value
    else cfg.defaultTab
  }

  /** The tab a pop handler restores from an entry: its state, else its fragment. */
  function Restore(cfg: Config, e: Entry): string {
    Resolve(cfg, if e.tab.Some? && e.tab.value != "" && IsTabId(e.tab.value) then e.tab else TabFromHash(e.hash))
  }

  predicate Shows(cfg: Config, tab: string) {
    tab == cfg.defaultTab || (IsTabId(tab) && (cfg.isKnown.None? || cfg.isKnown.value(tab)))
  }

  lemma RestoreIsShowable(cfg: Config, e: Entry)
    ensures Shows(cfg, Restore(cfg, e))
    ensures IsTabId(cfg.defaultTab) ==> IsTabId(Restore(cfg, e))
  {
  }

  // ----- the history list -----

  /** history.pushState: everything above the cursor is dropped. */
  function Push(s: Sys, e: Entry): Sys
    requires s.cur < |s.entries|
  {
    s.(entries := s.entries[..s.cur + 1] + [e], cur := s.cur + 1)
  }

  /** history.replaceState. */
  function Replace(s: Sys, e: Entry): Sys
    requires s.cur < |s.entries|
  {
    s.(entries := s.entries[s.cur := e])
  }

  // ----- the steps -----

  datatype Step =
    | Reload
    | Render
    | Navigate(tab: string)
    | Traverse(to: nat)
    | Edit(hash: string, firesPop: bool)
    | OpenSheet
    | CloseSheet

  predicate Enabled(s: Sys, e: Step) {
    s.cur < |s.entries| &&
    match e
    case Traverse(to) => to < |s.entries| && to != s.cur
    case OpenSheet => !s.open
    case CloseSheet => s.open && (s.entries[s.cur].sheet ==> s.cur > 0)
    case _ => true
  }

  /** The entry left behind by the mount effect when it runs on `e`. */
  function Seeded(cfg: Config, e: Entry): Entry {
    var fromHash := TabFromHash(e.hash);
    var active := Resolve(cfg, fromHash);
    var needsUrlFix := fromHash.Some? && fromHash.value != active;
    if e.tab.None? || needsUrlFix
    then e.(tab := Some(active), hash := if fromHash.Some? then "#" + active else e.hash)
    else e
  }

  /** First render and mount effect, on whatever list the browser holds. */
  function MountAt(cfg: Config, entries: seq<Entry>, cur: nat): Sys
    requires cur < |entries|
  {
    var active := Resolve(cfg, TabFromHash(entries[cur].hash));
    Sys(entries[cur := Seeded(cfg, entries[cur])], cur, active, active, false)
  }

  function Mount(cfg: Config, e: Entry): Sys {
    MountAt(cfg, [e], 0)
  }

  function OnHashChange(cfg: Config, active: string, hash: string): string {
    var fromHash := TabFromHash(hash);
    if fromHash.None? then active else Resolve(cfg, fromHash)
  }

  /**
    A traversal: both pop handlers run (the sheet's one closes the sheet, and
    since it was popped nothing is retired), then hashchange if the fragment differs.
   */
  function PopTo(cfg: Config, s: Sys, to: nat): Sys
    requires s.cur < |s.entries| && to < |s.entries|
  {
    var e := s.entries[to];
    var active := Restore(cfg, e);
    s.(cur := to, open := false,
       active := if e.hash == s.entries[s.cur].hash then active else OnHashChange(cfg, active, e.hash))
  }

  function NavigateTo(cfg: Config, s: Sys, tab: string): Sys
    requires s.cur < |s.entries|
  {
    var next := Resolve(cfg, Some(tab));
    if s.shownRef == next then s
    else Push(s, Entry("#" + next, Some(next), false, Navigated)).(active := next, shownRef := next)
  }

  /**
    A fragment navigation. The same URL replaces the entry, another one is pushed;
    either way its state is null. Whether popstate fires too is left to the browser.
   */
  function EditHash(cfg: Config, s: Sys, hash: string, firesPop: bool): Sys
    requires s.cur < |s.entries|
  {
    var e := Entry(hash, None, false, Edited);
    var same := hash == s.entries[s.cur].hash;
    var t := if same then Replace(s, e) else Push(s, e);
    var popped := if firesPop then t.(active := Restore(cfg, e), open := false) else t;
    if same then popped else popped.(active := OnHashChange(cfg, popped.active, hash))
  }

  function Apply(cfg: Config, s: Sys, e: Step): Sys
    requires Enabled(s, e)
  {
    match e
    case Reload => MountAt(cfg, s.entries, s.cur)
    case Render => s.(shownRef := s.active)
    case Navigate(tab) => NavigateTo(cfg, s, tab)
    case Traverse(to) => PopTo(cfg, s, to)
    case Edit(hash, firesPop) => EditHash(cfg, s, hash, firesPop)
    case OpenSheet =>
      var here := s.entries[s.cur];
      Push(s, here.(sheet := true, origin := Opened)).(open := true)
    case CloseSheet =>
      // Retired through history.back() only while the marker is the current entry.
      if s.entries[s.cur].sheet then PopTo(cfg, s.(open := false), s.cur - 1) else s.(open := false)
  }

  // ----- what every step keeps -----

  predicate Synced(cfg: Config, s: Sys) {
    s.cur < |s.entries| && s.active == Restore(cfg, s.entries[s.cur])
  }

  /** The state object and the fragment of an entry name the same tab. */
  predicate Agrees(cfg: Config, e: Entry) {
    Restore(cfg, e) == Resolve(cfg, TabFromHash(e.hash))
  }

  predicate AgreesAt(cfg: Config, entries: seq<Entry>, i: nat)
    requires i < |entries|
  {
    Agrees(cfg, entries[i])
  }

  /** A marker restores what the entry beneath it restores, and is never the first entry. */
  predicate MarkerFits(cfg: Config, entries: seq<Entry>, i: nat)
    requires i < |entries|
  {
    && (entries[i].sheet ==> i > 0 && Restore(cfg, entries[i]) == Restore(cfg, entries[i - 1]))
    && (entries[i].sheet <==> entries[i].origin == Opened)
    && (entries[i].origin == Loaded ==> i == 0)
  }

  ghost predicate Inv(cfg: Config, s: Sys) {
    && IsTabId(cfg.defaultTab)
    && Synced(cfg, s)
    && (forall i :: 0 <= i < |s.entries| ==> AgreesAt(cfg, s.entries, i))
    && (forall i :: 0 <= i < |s.entries| ==> MarkerFits(cfg, s.entries, i))
  }

  /** What is asked of a step: ids shaped like tab ids. */
  predicate WellFormed(cfg: Config, e: Step) {
    match e
    case Navigate(tab) => IsTabId(Resolve(cfg, Some(tab)))
    case Edit(hash, _) => TabFromHash(hash).Some?
    case _ => true
  }

  lemma WrittenEntry(cfg: Config, e: Entry, tab: string)
    requires IsTabId(tab) && Resolve(cfg, Some(tab)) == tab
    requires e.tab == Some(tab) && (e.hash == "#" + tab || Resolve(cfg, TabFromHash(e.hash)) == tab)
    ensures Restore(cfg, e) == tab && Agrees(cfg, e)
  {
    WrittenIdReadsBack(tab);
  }

  /** Whatever the mount effect writes, the entry keeps restoring the same tab. */
  lemma SeedingKeepsTab(cfg: Config, e: Entry)
    requires IsTabId(cfg.defaultTab) && Agrees(cfg, e)
    ensures Restore(cfg, Seeded(cfg, e)) == Restore(cfg, e) == Resolve(cfg, TabFromHash(e.hash))
    ensures Agrees(cfg, Seeded(cfg, e))
  {
    var active := Resolve(cfg, TabFromHash(e.hash));
    if Seeded(cfg, e) != e {
      WrittenEntry(cfg, Seeded(cfg, e), active);
    }
  }

  /**
    What the mount effect leaves: an entry with a state to restore from, a fragment
    that names the shown tab if it named any, an untouched URL otherwise, and nothing
    to do for a second mount.
   */
  lemma SeedingMeaning(cfg: Config, e: Entry)
    requires IsTabId(cfg.defaultTab)
    ensures var seeded := Seeded(cfg, e);
            var active := Resolve(cfg, TabFromHash(e.hash));
            && seeded.tab.Some? && seeded.sheet == e.sheet
            && (e.tab.None? ==> seeded.tab == Some(active))
            && (if TabFromHash(e.hash).Some? then TabFromHash(seeded.hash) == Some(active) else seeded.hash == e.hash)
            && Seeded(cfg, seeded) == seeded
  {
    WrittenIdReadsBack(Resolve(cfg, TabFromHash(e.hash)));
  }

  /** A fresh mount starts the invariant, on a foreign entry or one whose state and hash agree. */
  lemma MountStartsInv(cfg: Config, e: Entry)
    requires IsTabId(cfg.defaultTab) && Agrees(cfg, e)
    requires !e.sheet && e.origin == Loaded
    ensures Inv(cfg, Mount(cfg, e))
  {
    SeedingKeepsTab(cfg, e);
  }

  /**
    Exactly which first entries restore what the app shows: foreign ones, ones whose
    state is no tab id, ones whose fragment named a bad tab and is corrected, and ones
    whose state and fragment resolve to one tab.
   */
  lemma MountSyncedIff(cfg: Config, e: Entry)
    requires IsTabId(cfg.defaultTab)
    ensures var fromHash := TabFromHash(e.hash);
            var active := Resolve(cfg, fromHash);
            Synced(cfg, Mount(cfg, e)) <==>
              || e.tab.None? || !IsTabId(e.tab.value)
              || (fromHash.Some? && fromHash.value != active)
              || Resolve(cfg, e.tab) == active
  {
    if Seeded(cfg, e) != e {
      WrittenEntry(cfg, Seeded(cfg, e), Resolve(cfg, TabFromHash(e.hash)));
    }
  }

  lemma PushKeepsInv(cfg: Config, s: Sys, e: Entry)
    requires Inv(cfg, s) && Agrees(cfg, e) && e.origin != Loaded
    requires e.sheet <==> e.origin == Opened
    requires e.sheet ==> Restore(cfg, e) == s.active
    ensures Inv(cfg, Push(s, e).(active := Restore(cfg, e)))
  {
    var t := Push(s, e);
    forall i | 0 <= i < |t.entries|
      ensures AgreesAt(cfg, t.entries, i) && MarkerFits(cfg, t.entries, i)
    {
      if i <= s.cur {
        assert AgreesAt(cfg, s.entries, i) && MarkerFits(cfg, s.entries, i);
      }
    }
  }

  lemma ReplaceKeepsInv(cfg: Config, s: Sys, e: Entry)
    requires Inv(cfg, s) && Agrees(cfg, e) && Restore(cfg, e) == s.active
    requires e.sheet == s.entries[s.cur].sheet || !e.sheet
    requires e.sheet <==> e.origin == Opened
    requires e.origin == Loaded ==> s.entries[s.cur].origin == Loaded
    ensures Inv(cfg, Replace(s, e))
  {
    var t := Replace(s, e);
    forall i | 0 <= i < |t.entries|
      ensures AgreesAt(cfg, t.entries, i) && MarkerFits(cfg, t.entries, i)
    {
      assert AgreesAt(cfg, s.entries, i) && MarkerFits(cfg, s.entries, i);
      assert Restore(cfg, t.entries[i]) == Restore(cfg, s.entries[i]);
      assert i > 0 ==> Restore(cfg, t.entries[i - 1]) == Restore(cfg, s.entries[i - 1]);
    }
  }

  /** The state that shows entry `i`. */
  function At(cfg: Config, s: Sys, i: nat): Sys
    requires i < |s.entries|
  {
    s.(cur := i, active := Restore(cfg, s.entries[i]), open := false)
  }

  lemma PopToIsAt(cfg: Config, s: Sys, to: nat)
    requires s.cur < |s.entries| && to < |s.entries| && Agrees(cfg, s.entries[to])
    ensures PopTo(cfg, s, to) == At(cfg, s, to)
  {
  }

  lemma ReloadKeepsInv(cfg: Config, s: Sys)
    requires Inv(cfg, s)
    ensures Inv(cfg, MountAt(cfg, s.entries, s.cur))
  {
    var here := s.entries[s.cur];
    assert AgreesAt(cfg, s.entries, s.cur) && MarkerFits(cfg, s.entries, s.cur);
    SeedingKeepsTab(cfg, here);
    ReplaceKeepsInv(cfg, s, Seeded(cfg, here));
  }

  lemma NavigateKeepsInv(cfg: Config, s: Sys, tab: string)
    requires Inv(cfg, s) && IsTabId(Resolve(cfg, Some(tab)))
    ensures Inv(cfg, NavigateTo(cfg, s, tab))
  {
    var next := Resolve(cfg, Some(tab));
    var entry := Entry("#" + next, Some(next), false, Navigated);
    WrittenEntry(cfg, entry, next);
    PushKeepsInv(cfg, s, entry);
  }

  lemma EditKeepsInv(cfg: Config, s: Sys, hash: string, firesPop: bool)
    requires Inv(cfg, s) && TabFromHash(hash).Some?
    ensures Inv(cfg, EditHash(cfg, s, hash, firesPop))
  {
    var here, entry := s.entries[s.cur], Entry(hash, None, false, Edited);
    assert AgreesAt(cfg, s.entries, s.cur);
    if hash == here.hash {
      ReplaceKeepsInv(cfg, s, entry);
    } else {
      PushKeepsInv(cfg, s, entry);
    }
  }

  lemma TraverseKeepsInv(cfg: Config, s: Sys, to: nat)
    requires Inv(cfg, s) && to < |s.entries|
    ensures Inv(cfg, PopTo(cfg, s, to))
  {
    assert AgreesAt(cfg, s.entries, to);
    PopToIsAt(cfg, s, to);
  }

  lemma OpenKeepsInv(cfg: Config, s: Sys)
    requires Inv(cfg, s) && !s.open
    ensures Inv(cfg, Apply(cfg, s, OpenSheet))
  {
    assert AgreesAt(cfg, s.entries, s.cur);
    PushKeepsInv(cfg, s, s.entries[s.cur].(sheet := true, origin := Opened));
  }

  /** One step: the shown tab stays what a pop to the current entry would show. */
  lemma StepKeepsInv(cfg: Config, s: Sys, e: Step)
    requires Inv(cfg, s) && Enabled(s, e) && WellFormed(cfg, e)
    ensures Inv(cfg, Apply(cfg, s, e))
  {
    match e
    case Reload => ReloadKeepsInv(cfg, s);
    case Render =>
    case Navigate(tab) => NavigateKeepsInv(cfg, s, tab);
    case Traverse(to) => TraverseKeepsInv(cfg, s, to);
    case Edit(hash, firesPop) => EditKeepsInv(cfg, s, hash, firesPop);
    case OpenSheet => OpenKeepsInv(cfg, s);
    case CloseSheet =>
      if s.entries[s.cur].sheet { TraverseKeepsInv(cfg, s.(open := false), s.cur - 1); }
  }

  // ----- exactly which inputs keep the shown tab and the entry together -----

  /** A navigation keeps them together iff it goes nowhere or to an id shaped like a tab id. */
  lemma NavigateSyncedIff(cfg: Config, s: Sys, tab: string)
    requires Inv(cfg, s)
    ensures Synced(cfg, NavigateTo(cfg, s, tab)) <==>
              Resolve(cfg, Some(tab)) == s.shownRef || IsTabId(Resolve(cfg, Some(tab)))
  {
    var next := Resolve(cfg, Some(tab));
    var entry := Entry("#" + next, Some(next), false, Navigated);
    if IsTabId(next) {
      WrittenEntry(cfg, entry, next);
    } else {
      RestoreIsShowable(cfg, entry);
    }
  }

  /**
    A fragment edit keeps them together iff it changes nothing, the browser fires
    popstate as well, the fragment carries an id, or the default tab was showing.
   */
  lemma EditSyncedIff(cfg: Config, s: Sys, hash: string, firesPop: bool)
    requires Inv(cfg, s)
    ensures Synced(cfg, EditHash(cfg, s, hash, firesPop)) <==>
              hash == s.entries[s.cur].hash || firesPop || TabFromHash(hash).Some? || s.active == cfg.defaultTab
  {
    assert AgreesAt(cfg, s.entries, s.cur);
  }

  /**
    The failing input: from a mount on a bare URL, go to any tab but the default, then
    edit the fragment away in a browser that fires no popstate for that. The tab stays
    shown while the entry restores the default.
   */
  lemma ClearingTheFragmentDrifts(cfg: Config, tab: string)
    requires IsTabId(cfg.defaultTab) && IsTabId(tab) && Resolve(cfg, Some(tab)) == tab && tab != cfg.defaultTab
    ensures var s := Mount(cfg, Entry("", None, false, Loaded));
            var t := EditHash(cfg, NavigateTo(cfg, s, tab), "", false);
            && s.active == cfg.defaultTab && s.shownRef == s.active
            && t.active == tab && Restore(cfg, t.entries[t.cur]) == cfg.defaultTab && !Synced(cfg, t)
  {
  }

  lemma LogsDrift()
    ensures var cfg := Config("dashboard", None);
            var s := NavigateTo(cfg, Mount(cfg, Entry("", None, false, Loaded)), "logs");
            !Synced(cfg, EditHash(cfg, s, "", false)) && Synced(cfg, EditHash(cfg, s, "", true))
  {
    ClearingTheFragmentDrifts(Config("dashboard", None), "logs");
  }

  // ----- which tab is shown -----

  /** A known tab is shown and gets its own entry; an unknown one leads to the default. */
  lemma NavigateShows(cfg: Config, s: Sys, tab: string)
    requires Inv(cfg, s) && s.shownRef == s.active && IsTabId(tab)
    ensures var known := cfg.isKnown.None? || cfg.isKnown.value(tab);
            var target := if known then tab else cfg.defaultTab;
            var t := Apply(cfg, s, Navigate(tab));
            && t.active == t.shownRef == target
            && Restore(cfg, t.entries[t.cur]) == target
            && (target == s.active ==> t == s)
            && (target != s.active ==>
                 && t.cur == s.cur + 1
                 && t.entries == s.entries[..s.cur + 1] + [Entry("#" + target, Some(target), false, Navigated)])
  {
    StepKeepsInv(cfg, s, Navigate(tab));
  }

  /** A link shows the tab it names exactly when the build knows that tab or it is the default. */
  lemma MountShows(cfg: Config, entries: seq<Entry>, cur: nat, tab: string)
    requires cur < |entries| && IsTabId(tab)
    ensures var known := cfg.isKnown.None? || cfg.isKnown.value(tab);
            var s := MountAt(cfg, entries, cur);
            && s.shownRef == s.active && !s.open && s.cur == cur
            && (entries[cur].hash == "#" + tab ==>
                 && (s.active == tab <==> known || tab == cfg.defaultTab)
                 && (!known ==> s.active == cfg.defaultTab))
            && (entries[cur].hash == "" ==> s.active == cfg.defaultTab)
  {
    WrittenIdReadsBack(tab);
  }

  /**
    What a pop restores: the tab in the entry's state if it is shaped like an id, else
    the tab in the fragment; an id the build does not know, or none at all, the default.
   */
  lemma RestoreMeaning(cfg: Config, e: Entry, tab: string)
    requires IsTabId(tab)
    ensures var shown := if cfg.isKnown.None? || cfg.isKnown.value(tab) then tab else cfg.defaultTab;
            var stateless := e.tab.None? || !IsTabId(e.tab.value);
            && (e.tab == Some(tab) ==> Restore(cfg, e) == shown)
            && (stateless && e.hash == "#" + tab ==> Restore(cfg, e) == shown)
            && (stateless && TabFromHash(e.hash).None? ==> Restore(cfg, e) == cfg.defaultTab)
  {
    WrittenIdReadsBack(tab);
  }

  /** The ref only moves with a render, a navigation or a reload. */
  lemma RefMoves(cfg: Config, s: Sys, e: Step)
    requires Enabled(s, e)
    ensures var t := Apply(cfg, s, e);
            && (e.Render? ==> t == s.(shownRef := s.active))
            && (e.Reload? ==> t.shownRef == t.active)
            && (e.Navigate? ==> t == s || t.shownRef == t.active)
            && (!e.Render? && !e.Reload? && !e.Navigate? ==> t.shownRef == s.shownRef)
  {
  }

  /** Once a step is rendered, a call for any other known tab pushes it. */
  lemma RenderSettles(cfg: Config, s: Sys, e: Step, tab: string)
    requires Inv(cfg, s) && Enabled(s, e) && WellFormed(cfg, e)
    requires IsTabId(tab) && (cfg.isKnown.None? || cfg.isKnown.value(tab))
    ensures var t := Apply(cfg, Apply(cfg, s, e), Render);
            var u := Apply(cfg, t, Navigate(tab));
            && u.active == tab
            && (tab == Apply(cfg, s, e).active ==> u == t)
            && (tab != Apply(cfg, s, e).active ==>
                 u.cur == t.cur + 1 && u.entries[u.cur] == Entry("#" + tab, Some(tab), false, Navigated))
  {
    StepKeepsInv(cfg, s, e);
    StepKeepsInv(cfg, Apply(cfg, s, e), Render);
    NavigateShows(cfg, Apply(cfg, Apply(cfg, s, e), Render), tab);
  }

  // ----- runs -----

  ghost predicate Admissible(cfg: Config, s: Sys, steps: seq<Step>)
    decreases |steps|
  {
    steps == [] ||
    (Enabled(s, steps[0]) && WellFormed(cfg, steps[0]) && Admissible(cfg, Apply(cfg, s, steps[0]), steps[1..]))
  }

  ghost function Run(cfg: Config, s: Sys, steps: seq<Step>): Sys
    requires Admissible(cfg, s, steps)
    decreases |steps|
  {
    if steps == [] then s else Run(cfg, Apply(cfg, s, steps[0]), steps[1..])
  }

  lemma {:induction false} RunKeepsInv(cfg: Config, s: Sys, steps: seq<Step>)
    requires Inv(cfg, s) && Admissible(cfg, s, steps)
    ensures Inv(cfg, Run(cfg, s, steps))
    decreases |steps|
  {
    if steps != [] {
      StepKeepsInv(cfg, s, steps[0]);
      RunKeepsInv(cfg, Apply(cfg, s, steps[0]), steps[1..]);
    }
  }

  /** In every run the shown tab is the one the current entry restores, and one the build can show. */
  lemma EveryRunIsSynced(cfg: Config, e: Entry, steps: seq<Step>)
    requires IsTabId(cfg.defaultTab) && Agrees(cfg, e) && !e.sheet && e.origin == Loaded
    requires Admissible(cfg, Mount(cfg, e), steps)
    ensures var s := Run(cfg, Mount(cfg, e), steps);
            Synced(cfg, s) && Shows(cfg, s.active)
  {
    MountStartsInv(cfg, e);
    RunKeepsInv(cfg, Mount(cfg, e), steps);
    var s := Run(cfg, Mount(cfg, e), steps);
    RestoreIsShowable(cfg, s.entries[s.cur]);
  }
}
