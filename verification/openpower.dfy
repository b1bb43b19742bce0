/** What the OpenPOWER system and resource dump managers share: entries that mirror dumps on the host. */
module OpenPower {
  import opened Wrappers
  import opened OrderedIds

  /** The source id of a request the host has not reported yet. */
  const INVALID_SOURCE_ID := 0xFFFF_FFFF

  datatype Status = InProgress | Completed

  /** offloading tells that an offload URI is set. */
  datatype Entry = Entry(source: nat, size: nat, status: Status, offloading: bool)

  datatype State = State(entries: map<nat, Entry>, last: nat)

  /** Whether the host runs, and the entries whose deletion it fails. */
  datatype Host = Host(running: bool, fails: set<nat>)

  datatype Outcome = Ignored | Updated(id: nat) | Added(id: nat) | Refused | Dangling

  /** Entry::delete_ throws Unavailable otherwise. */
  predicate CanDelete(id: nat, e: Entry, host: Host) {
    host.running ==> !e.offloading && (e.source != INVALID_SOURCE_ID ==> id !in host.fails)
  }

  predicate IsPending(e: Entry) {
    e.status.InProgress? && e.source == INVALID_SOURCE_ID
  }

  function Reported(e: Entry, source: nat, size: nat): Entry {
    e.(source := source, size := size, status := Completed)
  }

  /** std::map::insert keeps an existing key. */
  function Insert(s: State, e: Entry): State {
    var id := NextId(s.last);
    State(if id in s.entries then s.entries else s.entries[id := e], id)
  }

  function AfterRequest(s: State): State {
    Insert(s, Entry(INVALID_SOURCE_ID, 0, InProgress, false))
  }

  function AfterDelete(s: State, id: nat, host: Host): State {
    if id in s.entries && CanDelete(id, s.entries[id], host) then s.(entries := s.entries - {id}) else s
  }

  function AfterOffload(s: State, id: nat): State {
    if id in s.entries then s.(entries := s.entries[id := s.entries[id].(offloading := true)]) else s
  }

  /** With the host down every entry can go; with the host up only one not being offloaded whose dump the host can delete. */
  predicate MayGo(id: nat, e: Entry, host: Host) {
    !host.running || (!e.offloading && (e.source == INVALID_SOURCE_ID || id !in host.fails))
  }

  lemma {:induction false} DeleteEffect(s: State, id: nat, host: Host)
    ensures var t := AfterDelete(s, id, host);
            && t.last == s.last
            && (forall k :: k in t.entries <==> k in s.entries && !(k == id && MayGo(k, s.entries[k], host)))
            && forall k :: k in t.entries ==> t.entries[k] == s.entries[k]
  {
  }

  /** What becomes of an entry under offload while the host runs: once completed it is as it was. */
  predicate KeptOffloading(e: Entry, e': Entry) {
    e'.offloading && (e.status.Completed? ==> e' == e)
  }

  /** Ids in use are at most the last one issued. */
  ghost predicate KeysBelow(s: State) {
    s.last < U32 && forall id :: id in s.entries ==> id <= s.last
  }

  /** A request adds a pending entry without source and size under the id after the last one, which was free. */
  lemma {:induction false} RequestEffect(s: State)
    requires KeysBelow(s) && s.last + 1 < U32
    ensures var t := AfterRequest(s);
            && s.last + 1 !in s.entries && KeysBelow(t)
            && t == State(s.entries[s.last + 1 := Entry(INVALID_SOURCE_ID, 0, InProgress, false)], s.last + 1)
  {
  }

  /** What every run keeps: pending entries have no source, reported ones have sources of their own. */
  ghost predicate Consistent(s: State) {
    && KeysBelow(s)
    && (forall id :: id in s.entries ==> (s.entries[id].status.InProgress? <==> s.entries[id].source == INVALID_SOURCE_ID))
    && (forall i, j :: i in s.entries && j in s.entries && i != j && s.entries[i].source == s.entries[j].source ==>
          s.entries[i].source == INVALID_SOURCE_ID)
  }

  /** The oldest pending request. */
  ghost predicate IsFirstPending(id: nat, entries: map<nat, Entry>) {
    && id in entries && IsPending(entries[id])
    && forall j :: j in entries && IsPending(entries[j]) ==> id <= j
  }

  ghost predicate SomePending(entries: map<nat, Entry>) {
    exists id :: id in entries && IsPending(entries[id])
  }
}
