/** The application store: the colour theme, whether the sidebar is open, and
    the most-recent-first history of agent actions, capped at fifty entries.
    Each action replaces only its own field; the store's partial `set` keeps
    the others. */
module AppStore {

  /** `history.slice(0, 49)` plus the new item: at most this many entries. */
  const HistoryLimit: nat := 50

  datatype Theme = Light | Dark

  datatype Status = Success | Error | Pending

  /** The argument of `addHistory`: a history item without its id and
      timestamp. */
  datatype HistoryEntry = HistoryEntry(agentId: string, action: string, status: Status)

  datatype HistoryItem = HistoryItem(id: string, agentId: string, action: string, timestamp: int, status: Status)

  /** The other theme. */
  function Toggled(t: Theme): (r: Theme)
    ensures r != t
  {
    if t == Light then Dark else Light
  }

  lemma ToggledTwice(t: Theme)
    ensures Toggled(Toggled(t)) == t
  {
  }

  /** `{ ...entry, id, timestamp }`. */
  function Stamp(entry: HistoryEntry, id: string, timestamp: int): (item: HistoryItem)
    ensures item.agentId == entry.agentId && item.action == entry.action && item.status == entry.status
    ensures item.id == id && item.timestamp == timestamp
  {
    HistoryItem(id, entry.agentId, entry.action, timestamp, entry.status)
  }

  function Min(a: nat, b: nat): nat {
    if a < b then a else b
  }

  /** `[item, ...history.slice(0, 49)]`: the new item first, then the newest
      49 of the old entries in their order. */
  function Prepend(item: HistoryItem, history: seq<HistoryItem>): (r: seq<HistoryItem>)
    ensures |r| == Min(|history| + 1, HistoryLimit)
    ensures r[0] == item
    ensures forall i :: 1 <= i < |r| ==> r[i] == history[i - 1]
  {
    [item] + history[..Min(|history|, HistoryLimit - 1)]
  }

  function Reversed<T>(s: seq<T>): (r: seq<T>)
    ensures |r| == |s|
  {
    if s == [] then [] else [s[|s| - 1]] + Reversed(s[..|s| - 1])
  }

  /** The history after adding `items` one after another, oldest first. */
  function AddAll(history: seq<HistoryItem>, items: seq<HistoryItem>): seq<HistoryItem> {
    if items == [] then history
    else Prepend(items[|items| - 1], AddAll(history, items[..|items| - 1]))
  }

  /** After any run of additions the history is the newest items, most recent
      first, followed by the older history, cut to fifty entries. */
  lemma {:induction false} AddAllKeepsNewest(history: seq<HistoryItem>, items: seq<HistoryItem>)
    requires |history| <= HistoryLimit
    ensures AddAll(history, items) == (Reversed(items) + history)[..Min(|items| + |history|, HistoryLimit)]
  {
    if items != [] {
      var front := items[..|items| - 1];
      var x := items[|items| - 1];
      AddAllKeepsNewest(history, front);
      var before := AddAll(history, front);
      var whole := Reversed(items) + history;
      assert whole == [x] + (Reversed(front) + history);
      var r := Prepend(x, before);
      var n := Min(|items| + |history|, HistoryLimit);
      assert |r| == n;
      forall i | 0 <= i < n
        ensures r[i] == whole[..n][i]
      {
        if i > 0 {
          assert r[i] == before[i - 1];
        }
      }
    }
  }

  /** The store's state. */
  class Store {
    var theme: Theme
    var sidebarOpen: bool
    var history: seq<HistoryItem>

    /** The history never holds more than fifty entries. */
    ghost predicate Valid()
      reads this
    {
      |history| <= HistoryLimit
    }

    /** Light theme, sidebar closed, no history. */
    constructor ()
      ensures Valid()
      ensures theme == Light && !sidebarOpen && history == []
    {
      theme := Light;
      sidebarOpen := false;
      history := [];
    }

    /** `toggleTheme`. */
    method ToggleTheme()
      requires Valid()
      modifies this
      ensures Valid()
      ensures theme == Toggled(old(theme))
      ensures sidebarOpen == old(sidebarOpen) && history == old(history)
    {
      theme := Toggled(theme);
    }

    /** `toggleSidebar`. */
    method ToggleSidebar()
      requires Valid()
      modifies this
      ensures Valid()
      ensures sidebarOpen == !old(sidebarOpen)
      ensures theme == old(theme) && history == old(history)
    {
      sidebarOpen := !sidebarOpen;
    }

    /** `addHistory(entry)`, with the random id and the clock reading it
        stamps the entry with passed in. */
    method AddHistory(entry: HistoryEntry, id: string, timestamp: int)
      requires Valid()
      modifies this
      ensures Valid()
      ensures history == Prepend(Stamp(entry, id, timestamp), old(history))
      ensures theme == old(theme) && sidebarOpen == old(sidebarOpen)
    {
      history := Prepend(Stamp(entry, id, timestamp), history);
    }

    /** `clearHistory`. */
    method ClearHistory()
      modifies this
      ensures Valid()
      ensures history == []
      ensures theme == old(theme) && sidebarOpen == old(sidebarOpen)
    {
      history := [];
    }
  }
}
