/**
  The two hooks as they run: fields updated by event handlers, over the list that the
  browser keeps. Every method is proved to be one step of `TabHistory`.
 */
module TabAppModel {
  import opened Prelude
  import opened TabIds
  import opened TabHistory

  class TabApp {
    const cfg: Config
    // The browser's session history for this document.
    var entries: seq<Entry>
    var cursor: nat
    // useTabHistory.
    var activeTab: string
    var activeTabRef: string
    // useSheetBackDismiss; `popped` belongs to the effect of the open sheet.
    var sheetOpen: bool
    var popped: bool

    ghost function Snapshot(): Sys
      reads this
    {
      Sys(entries, cursor, activeTab, activeTabRef, sheetOpen)
    }

    ghost predicate Valid()
      reads this
    {
      Inv(cfg, Snapshot()) && (sheetOpen ==> !popped) && MarkerFits(cfg, entries, cursor)
    }

    /** Loads the app on entry `e`. */
    constructor (cfg: Config, e: Entry)
      requires IsTabId(cfg.defaultTab) && Agrees(cfg, e) && !e.sheet && e.origin == Loaded
      ensures Valid() && this.cfg == cfg && Snapshot() == Mount(cfg, e)
    {
      this.cfg := cfg;
      entries, cursor := [e], 0;
      activeTab := "";
      activeTabRef := "";
      sheetOpen, popped := false, false;
      new;
      RenderFirst();
      MountStartsInv(cfg, e);
    }

    /** First render, then the mount effect. */
    method RenderFirst()
      requires cursor < |entries|
      modifies this
      ensures Snapshot() == MountAt(cfg, old(entries), old(cursor))
    {
      activeTab := Resolve(cfg, TabFromHash(entries[cursor].hash));
      activeTabRef := activeTab;
      sheetOpen, popped := false, false;
      var current := entries[cursor];
      var fromHash := TabFromHash(current.hash);
      var needsUrlFix := fromHash.Some? && fromHash.value != activeTab;
      if current.tab.None? || needsUrlFix {
        var hash := if needsUrlFix || fromHash.Some? then "#" + activeTab else current.hash;
        entries := entries[cursor := current.(tab := Some(activeTab), hash := hash)];
      }
    }

    method Reload()
      requires Valid()
      modifies this
      ensures Valid() && Snapshot() == Apply(cfg, old(Snapshot()), Step.Reload)
    {
      StepKeepsInv(cfg, Snapshot(), Step.Reload);
      RenderFirst();
    }

    method Render()
      requires Valid()
      modifies this`activeTabRef
      ensures Valid() && Snapshot() == Apply(cfg, old(Snapshot()), Step.Render)
    {
      activeTabRef := activeTab;
    }

    method PushState(e: Entry)
      requires cursor < |entries|
      modifies this`entries, this`cursor
      ensures Snapshot() == Push(old(Snapshot()), e)
    {
      entries := entries[..cursor + 1] + [e];
      cursor := cursor + 1;
    }

    method Navigate(tab: string)
      requires Valid() && WellFormed(cfg, Step.Navigate(tab))
      modifies this
      ensures Valid() && Snapshot() == Apply(cfg, old(Snapshot()), Step.Navigate(tab))
      ensures old(activeTabRef) == old(activeTab) && IsTabId(tab) ==>
                activeTab == if cfg.isKnown.None? || cfg.isKnown.value(tab) then tab else cfg.defaultTab
    {
      if activeTabRef == activeTab && IsTabId(tab) { NavigateShows(cfg, Snapshot(), tab); }
      StepKeepsInv(cfg, Snapshot(), Step.Navigate(tab));
      var next := Resolve(cfg, Some(tab));
      if activeTabRef == next { return; }
      PushState(Entry("#" + next, Some(next), false, Navigated));
      activeTabRef := next;
      activeTab := next;
    }

    /** The popstate listener of useTabHistory. */
    method OnTabPop()
      requires cursor < |entries|
      modifies this`activeTab
      ensures activeTab == Restore(cfg, entries[cursor])
    {
      var state := entries[cursor].tab;
      var fromState := if state.Some? && state.value != "" && IsTabId(state.value) then state else None;
      var tab := if fromState.Some? then fromState else TabFromHash(entries[cursor].hash);
      activeTab := Resolve(cfg, tab);
    }

    /** The hashchange listener of useTabHistory. */
    method OnTabHashChange()
      requires cursor < |entries|
      modifies this`activeTab
      ensures activeTab == OnHashChange(cfg, old(activeTab), entries[cursor].hash)
    {
      var fromHash := TabFromHash(entries[cursor].hash);
      if fromHash.None? { return; }
      var next := Resolve(cfg, fromHash);
      if activeTab != next { activeTab := next; }
    }

    /** The popstate listener of an open sheet: it closes, and the clean-up finds it popped. */
    method OnSheetPop()
      requires cursor < |entries| && sheetOpen
      modifies this`sheetOpen, this`popped
      ensures !sheetOpen
    {
      popped := true;
      sheetOpen := false;
    }

    /** The browser moves to another entry and fires its events. */
    method Go(to: nat)
      requires cursor < |entries| && to < |entries|
      modifies this`cursor, this`activeTab, this`sheetOpen, this`popped
      ensures Snapshot() == PopTo(cfg, old(Snapshot()), to)
    {
      var oldHash := entries[cursor].hash;
      cursor := to;
      OnTabPop();
      if sheetOpen { OnSheetPop(); }
      if entries[cursor].hash != oldHash { OnTabHashChange(); }
    }

    method Traverse(to: nat)
      requires Valid() && Enabled(Snapshot(), Step.Traverse(to))
      modifies this
      ensures Valid() && Snapshot() == Apply(cfg, old(Snapshot()), Step.Traverse(to))
    {
      StepKeepsInv(cfg, Snapshot(), Step.Traverse(to));
      Go(to);
    }

    /** The user edits the fragment; the browser may fire popstate before hashchange. */
    method Edit(hash: string, firesPop: bool)
      requires Valid() && WellFormed(cfg, Step.Edit(hash, firesPop))
      modifies this
      ensures Valid() && Snapshot() == Apply(cfg, old(Snapshot()), Step.Edit(hash, firesPop))
    {
      StepKeepsInv(cfg, Snapshot(), Step.Edit(hash, firesPop));
      var changed := hash != entries[cursor].hash;
      if changed {
        PushState(Entry(hash, None, false, Edited));
      } else {
        entries := entries[cursor := Entry(hash, None, false, Edited)];
      }
      if firesPop {
        OnTabPop();
        if sheetOpen { OnSheetPop(); }
      }
      if changed { OnTabHashChange(); }
    }

    /** The effect of a sheet that becomes open. */
    method OpenSheet()
      requires Valid() && !sheetOpen
      modifies this
      ensures Valid() && Snapshot() == Apply(cfg, old(Snapshot()), Step.OpenSheet)
    {
      StepKeepsInv(cfg, Snapshot(), Step.OpenSheet);
      PushState(entries[cursor].(sheet := true, origin := Opened));
      sheetOpen, popped := true, false;
    }

    /** Escape, the handle or an action: onClose, then the effect's clean-up. */
    method CloseSheet()
      requires Valid() && sheetOpen
      modifies this
      ensures Valid() && Snapshot() == Apply(cfg, old(Snapshot()), Step.CloseSheet)
    {
      StepKeepsInv(cfg, Snapshot(), Step.CloseSheet);
      sheetOpen := false;
      if !popped && entries[cursor].sheet {
        Go(cursor - 1);
      }
    }
  }
}
