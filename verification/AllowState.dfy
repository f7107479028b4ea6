/** The allow list as a value: the profiles, the index that answers queries about them, and
    the operations that keep the two together. */
module AllowState {
  import opened Options

  const BITMAP_UID_MAX: nat := 4096 * 8 - 1
  const ARRAY_SIZE: nat := 1024
  const APP_PROFILE_VERSION: nat := 2
  const MAX_GROUPS: int := 32
  const PRESERVED_UID: nat := 9999
  const INVALID_UID: nat := 0xFFFF_FFFF

  datatype RootProfile = RootProfile(uid: int, gid: int, groupsCount: int, groups: seq<int>,
                                     capabilities: (nat, nat, nat), domain: string, namespaces: int)

  // The union of the root and the non-root configuration: one block of memory, of which the
  // first reads useDefault and rootProfile, the second useDefault and umountModules.
  datatype Config = Config(useDefault: bool, rootProfile: RootProfile, umountModules: bool)

  datatype Profile = Profile(version: nat, key: string, uid: nat, allowSu: bool, config: Config)

  datatype State = State(list: seq<Profile>, bits: set<nat>, cells: seq<nat>, nonRoot: bool, root: RootProfile)

  predicate ProfileValid(p: Profile) {
    && p.version >= APP_PROFILE_VERSION
    && (p.allowSu ==> p.config.rootProfile.groupsCount <= MAX_GROUPS && p.config.rootProfile.domain != "")
  }

  // The entry with this uid and key, or |list|.
  function FindEntry(list: seq<Profile>, uid: nat, key: string): (i: nat)
    ensures i <= |list|
    ensures i < |list| ==> list[i].uid == uid && list[i].key == key
    ensures forall j | 0 <= j < i :: !(list[j].uid == uid && list[j].key == key)
  {
    if list == [] || (list[0].uid == uid && list[0].key == key) then 0 else 1 + FindEntry(list[1..], uid, key)
  }

  function Store(list: seq<Profile>, p: Profile): seq<Profile> {
    var i := FindEntry(list, p.uid, p.key);
    if i < |list| then list[i := p] else list + [p]
  }

  function Without(cells: seq<nat>, uid: nat): seq<nat> {
    if cells == [] then [] else (if cells[0] == uid then [] else [cells[0]]) + Without(cells[1..], uid)
  }

  predicate Overflows(st: State, p: Profile) {
    p.uid > BITMAP_UID_MAX && p.allowSu && |st.cells| >= ARRAY_SIZE
  }

  predicate Succeeds(st: State, p: Profile) {
    ProfileValid(p) && !Overflows(st, p)
  }

  // The index after a decision that finds room.
  function Decided(st: State, p: Profile): State {
    st.(bits := if p.uid > BITMAP_UID_MAX then st.bits else if p.allowSu then st.bits + {p.uid} else st.bits - {p.uid},
        cells := if p.uid <= BITMAP_UID_MAX then st.cells
                 else if p.allowSu then st.cells + [p.uid] else Without(st.cells, p.uid))
  }

  // An overflowing profile is listed, yet reported as failed and not indexed.
  function SetProfile(st: State, p: Profile): State {
    if !ProfileValid(p) then st
    else if Overflows(st, p) then st.(list := Store(st.list, p))
    else Decided(st, p).(
           list := Store(st.list, p),
           nonRoot := if p.key == "$" then p.config.umountModules else st.nonRoot,
           root := if p.key == "#" then p.config.rootProfile else st.root)
  }

  type UidCheck = (nat, string) -> bool

  predicate Kept(p: Profile, valid: UidCheck) {
    p.uid == PRESERVED_UID || valid(p.uid, p.key)
  }

  function Unindex(st: State, uid: nat): State {
    st.(bits := st.bits - {uid}, cells := Without(st.cells, uid))
  }

  // Walks the list from entry i on.
  function PruneFrom(st: State, i: nat, valid: UidCheck): State
    requires i <= |st.list|
    decreases |st.list| - i
  {
    if i == |st.list| then st
    else if Kept(st.list[i], valid) then PruneFrom(st, i + 1, valid)
    else PruneFrom(Unindex(st, st.list[i].uid).(list := st.list[..i] + st.list[i + 1..]), i, valid)
  }

  function Prune(st: State, valid: UidCheck): State {
    PruneFrom(st, 0, valid)
  }

  // -------- Queries --------

  predicate Indexed(st: State, uid: nat) {
    if uid <= BITMAP_UID_MAX then uid in st.bits else uid in st.cells
  }

  predicate ForbidSystemUid(uid: nat) {
    uid < 2000 && uid != 1000
  }

  // manager is the global manager uid; root is allowed in the manager's own domain only.
  predicate IsAllowUid(st: State, uid: nat, manager: nat, inKsuDomain: bool) {
    if uid == 0 then inKsuDomain
    else if ForbidSystemUid(uid) then false
    else if manager != INVALID_UID && manager == uid then true
    else Indexed(st, uid)
  }

  function FirstOf(list: seq<Profile>, uid: nat): Option<Profile> {
    if list == [] then None else if list[0].uid == uid then Some(list[0]) else FirstOf(list[1..], uid)
  }

  predicate ShouldUmount(st: State, uid: nat, manager: nat) {
    if manager != INVALID_UID && manager == uid then false
    else
      var p := FirstOf(st.list, uid);
      if p.None? then st.nonRoot
      else if p.value.allowSu then false
      else if p.value.config.useDefault then st.nonRoot
      else p.value.config.umountModules
  }

  // -------- The initial state --------

  const ALL_CAPABILITIES: nat := 0x1FF_FFFF_FFFF

  function NoGroups(n: nat): (groups: seq<int>)
    ensures |groups| == n && forall g | g in groups :: g == 0
  {
    if n == 0 then [] else [0] + NoGroups(n - 1)
  }

  const DEFAULT_ROOT: RootProfile := RootProfile(0, 0, 1, NoGroups(MAX_GROUPS), (ALL_CAPABILITIES, 0, 0), "u:r:su:s0", 0)

  const INITIAL: State := State([], {}, [], true, DEFAULT_ROOT)
}
