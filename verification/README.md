# Verification of the root manager's algorithms and of the DTBO packer

A Dafny model of seven pieces of this repository: the SELinux policy rewriter, the search for the
manager app with its verdict cache, the election of the manager, the allow list, the mount-id
pools, the APK signing-block check, and the DTBO image builder and reader. Run
`dafny verify dfyconfig.toml` to check all of it.

## How the model is built

Code that changes state is a class or a method with loops; its contract equates the new state (a
`View()`, or the fields) with a function of the old one, and the theorems are lemmas about those
functions and about whole runs of them.

| source | state and code | functions and theorems |
|---|---|---|
| `sepolicy.c` | `PolicyDb` (tables as arrays, the rule table as a list of nodes, `Avtab`) | `Sepolicy`, `RuleAlgebra`, `PolicyRuns`, `PolicyWords`, `PolicyNames`, `PolicyMeaning`, `PolicyConstraints`, `PolicyXperms` |
| `throne_tracker.c`, `core_hook.c` | `ThroneTracker`, `PackagePath` | `ApkTree`, `ApkPaths`, `ApkCache`, `Throne`, `ThroneRuns` |
| `allowlist.c`, `ksu.h` | `AllowList` (a byte bitmap and a cell array) | `AllowState`, `AllowRuns`, `AllowRecord`, `AllowFile`, `AllowBytes` |
| `e404_ksu_susfs_hooks.patch` | `MountTable` | `MountIds`, `MountCopies`, `MountRuns`, `MountGroups` |
| `apk_sign.c` | `ApkSign`, `ZipEntries`, `ZipEnd`, `ApkCheck` | `SigningBlock`, `SignerBytes` |
| `mkdtboimg.py` | `Dtbo`, `DtboImage` | `NumberText`, `DtboLayout`, `DtboWords`, `DtboDecode`, `DtboBytes` |

Conventions and side conditions:

- A 32-bit access vector, an ebitmap row and an xperm word are sets of bit positions; the allow
  list's bitmap is bytes of bits.
- Hash tables are enumerated in an arbitrary order. An alias is a second name with the same datum.
- SHA-256, compression, name hashing and the manager verdict are parameters. Compression has an
  inverse (`Inverse`) only where stated; which hash collisions matter is part of the theorems.
- A file position that a read moves is explicit; a read moves it by the bytes read.
- Mounts: what each operation demands (`Demand`, `CopyDemand`, `GroupDemand`) is exact. Only that
  new mounts get new handles and that what is cloned or freed exists is required of a call.
- Election: scanned uids are app uids below 100000 (`AppUids`), and no task runs with the invalid
  uid. App id 67295, which the invalid uid has modulo 100000, blocks every election from boot
  while it is scanned (`VacantPassElects`, `VacantForever`).
- Allow list: with two entries for one uid the index and the list can disagree, and an allowed app
  can be unmounted for; `IndexIsScan` and `ConflictExact` say exactly when, by tests on the state
  before each call.
- Allow-list file: records follow any layout that gives back every profile that fits the C struct
  (`Representable`); `AllowRecord` is one.
- Archives: no comment length smaller than the real one matches by accident, and lengths inside a
  signer lie inside its pair (`ArchiveOk`).
- Entries of a DTBO image at the same offset need not have the same file: an empty blob shares its
  offset with its successor. `OffsetsExact` says exactly when they do.
- `compress_dt_entry` builds, but does not raise, its error for an unknown format; the lookup that
  follows raises instead, so the model reports an error there, as the code does.
- An image whose `dt_entries_offset` exceeds the header size is refused on reading, because the
  word count then becomes a fraction.

## Model

| member | source | states |
|---|---|---|
| `PolicyDb.PolicyDb.GetAvtabNode` | kernelsu/drivers/kernelsu/selinux/sepolicy.c:90-142 | Finds or inserts the one node of a rule: the default for a new key depends on the rule kind, an existing xperm node of the same kind and driver keeps its bitmap, `len` grows only on insertion, and no rule is ever stored twice |
| `PolicyDb.PolicyDb.WriteEntry` | kernelsu/drivers/kernelsu/selinux/sepolicy.c:247-267 | Sets or clears the named permission (or the whole word) at one key and leaves every other entry as it was |
| `PolicyDb.PolicyDb.AddRuleAnySource` | kernelsu/drivers/kernelsu/selinux/sepolicy.c:199-218 | Expanding an ALL source in any enumeration order gives the pointwise update over the whole footprint |
| `PolicyDb.PolicyDb.AddRuleAnyTarget` | kernelsu/drivers/kernelsu/selinux/sepolicy.c:219-238 | The same for an ALL target |
| `PolicyDb.PolicyDb.AddRuleAnyClass` | kernelsu/drivers/kernelsu/selinux/sepolicy.c:239-246 | The same for an ALL class |
| `PolicyDb.PolicyDb.AddRuleRaw` | kernelsu/drivers/kernelsu/selinux/sepolicy.c:195-268 | The recursion over wildcards computes one pointwise update of the table, independent of hash order and of aliased names |
| `PolicyDb.PolicyDb.AddRule` | kernelsu/drivers/kernelsu/selinux/sepolicy.c:144-193 | Fails exactly when a named side, class or permission does not exist, without changing the policy |
| `RuleAlgebra.RewriteUnion` | kernelsu/drivers/kernelsu/selinux/sepolicy.c:195-268 | Updating two footprints one after the other is updating their union once, overlaps included: why aliases and order do not matter |
| `RuleAlgebra.ApplyRuleUnion` | kernelsu/drivers/kernelsu/selinux/sepolicy.c:130-139 | The same with the table's size: a key in both footprints is counted once |
| `RuleAlgebra.SingleRule` | kernelsu/drivers/kernelsu/selinux/sepolicy.c:247-267 | A rule with all sides given has a footprint of one key |
| `RuleAlgebra.InsertXpermsUnion` | kernelsu/drivers/kernelsu/selinux/sepolicy.c:97-128 | Storing bitmaps for two footprints is storing them for their union once, overlaps included |
| `PolicyMeaning.RuleAt` | kernelsu/drivers/kernelsu/selinux/sepolicy.c:195-268 | Entry by entry: after a rule a bit is set or cleared at exactly the keys of the effect, sides, class and permission it names, where an ALL side is every type if strip_av holds and every attribute otherwise; all other bits are unchanged |
| `PolicyWords.KsuRuleBit` | kernelsu/drivers/kernelsu/selinux/sepolicy.c:195-268 | With every side named, ksu_allow and ksu_auditallow set, and ksu_deny and ksu_dontaudit clear, exactly bit v-1 of the one word of source, target, class and kind, where v is the value of the permission in the class or else in its common; nothing else in the policy changes but the table's size, by 16 for a new entry |
| `PolicyWords.KsuRuleWord` | kernelsu/drivers/kernelsu/selinux/sepolicy.c:195-268 | Without a permission they write exactly bits 0 to 31 of that word |
| `PolicyWords.KsuRuleReaches` | kernelsu/drivers/kernelsu/selinux/sepolicy.c:144-246 | With sides open: exactly which entries exist afterwards and each of their bits, where an open side is every attribute, or every type for ksu_deny, and an open class is every class of the policy |
| `PolicyWords.UnknownPermission` | kernelsu/drivers/kernelsu/selinux/sepolicy.c:176-190 | A permission that neither the class nor its common has changes nothing |
| `PolicyMeaning.AllowMeaning` | kernelsu/drivers/kernelsu/selinux/sepolicy.c:997-1001 | ksu_allow adds exactly the access of the type pairs that both sides cover, with access as the union over attribute rows |
| `PolicyMeaning.DenyMeaning` | kernelsu/drivers/kernelsu/selinux/sepolicy.c:1003-1007 | After ksu_deny a pair has access iff some table entry that the rule does not name still grants it |
| `PolicyMeaning.DontAuditMeaning` | kernelsu/drivers/kernelsu/selinux/sepolicy.c:1014-1018 | ksu_dontaudit silences exactly the denials of the covered pairs |
| `PolicyMeaning.WildcardAllowReachesLaterTypes` | kernelsu/drivers/kernelsu/selinux/sepolicy.c:199-218 | A wildcard-source ksu_allow, on any target side, ALL included, gives every type that carries an attribute known at that time, types created later included, access to every type the target side covers, through every run whose last rule naming that entry does not deny it; rules on other entries do not matter |
| `PolicyMeaning.TargetCarriesItself` | kernelsu/drivers/kernelsu/selinux/sepolicy.c:689-691 | Over any run a type's own row names it, so rules on the type itself keep their meaning |
| `PolicyMeaning.WildcardDenyLeavesNoAccess` | kernelsu/drivers/kernelsu/selinux/sepolicy.c:199-206 | After a wildcard/wildcard ksu_deny and any run, two types have the permission iff a later rule allows one of their entries; without such a rule no pair has it, however many types the run creates |
| `PolicyMeaning.RunHolds` | kernelsu/drivers/kernelsu/selinux/sepolicy.c:997-1018 | Over any run mixing rules, types and attributes, an allow, auditallow or auditdeny bit is what the last succeeding rule of its effect naming it makes of it, else what it was |
| `PolicyMeaning.RunAccess` | kernelsu/drivers/kernelsu/selinux/sepolicy.c:997-1018 | Hence, exactly, the access of any two types after any run |
| `PolicyMeaning.RunAudited` | kernelsu/drivers/kernelsu/selinux/sepolicy.c:1009-1018 | And, exactly, whose denials are audited after any run |
| `PolicyDb.PolicyDb.AddXpermAnySource` | kernelsu/drivers/kernelsu/selinux/sepolicy.c:281-292 | Expanding an ALL source covers attributes only, in any enumeration order |
| `PolicyDb.PolicyDb.AddXpermAnyTarget` | kernelsu/drivers/kernelsu/selinux/sepolicy.c:293-303 | The same for an ALL target |
| `PolicyDb.PolicyDb.AddXpermAnyClass` | kernelsu/drivers/kernelsu/selinux/sepolicy.c:304-311 | The same for an ALL class |
| `PolicyDb.PolicyDb.AddXpermRuleRaw` | kernelsu/drivers/kernelsu/selinux/sepolicy.c:277-367 | The recursion stores one bitmap per key of the footprint, kind and driver, and keeps those already there |
| `PolicyDb.PolicyDb.AddXpermRule` | kernelsu/drivers/kernelsu/selinux/sepolicy.c:369-416 | Fails exactly when a named side or class does not exist; a missing range is 0 to 0xFFFF |
| `PolicyDb.EncodeXperms` | kernelsu/drivers/kernelsu/selinux/sepolicy.c:270-351 | The loop over the eight 32-bit words sets exactly the bits from low to high, as drivers or as functions of one driver |
| `PolicyWords.KsuXpermNode` | kernelsu/drivers/kernelsu/selinux/sepolicy.c:277-416 | With every side named an xperm rule adds one node, unless it is there: for codes of one driver its number and their low bytes, over several drivers number 0 and the drivers, and without a range every driver |
| `PolicyWords.KsuXpermReaches` | kernelsu/drivers/kernelsu/selinux/sepolicy.c:277-311 | With sides open: nodes of that kind and number for exactly the attributes and classes |
| `PolicyXperms.RangeCovers` | kernelsu/drivers/kernelsu/selinux/sepolicy.c:323-351 | A range in one driver covers exactly its codes; a range over several drivers covers exactly the whole drivers from the first to the last |
| `PolicyXperms.RangeExactness` | kernelsu/drivers/kernelsu/selinux/sepolicy.c:323-351 | The range is always covered, and nothing else is iff it lies in one driver or is driver-aligned |
| `PolicyXperms.NewNodeCovers` | kernelsu/drivers/kernelsu/selinux/sepolicy.c:323-412 | A node that a rule adds to the table covers its range: exactly within one driver, as whole drivers otherwise, and all 65536 codes for ALL |
| `PolicyXperms.ReversedRangeIsEmpty` | kernelsu/drivers/kernelsu/selinux/sepolicy.c:332-351 | A range given backwards covers nothing |
| `PolicyXperms.AddXpermRuleAt` | kernelsu/drivers/kernelsu/selinux/sepolicy.c:97-128 | After an xperm rule exactly the named nodes exist besides the old ones, and an old node keeps its bitmap |
| `PolicyXperms.FirstXpermWins` | kernelsu/drivers/kernelsu/selinux/sepolicy.c:97-128 | Over any run the bitmap first stored for a key, kind and driver never changes: a second range in the same driver is ignored |
| `PolicyXperms.RunNewNode` | kernelsu/drivers/kernelsu/selinux/sepolicy.c:97-128 | A key, kind and driver absent at the start of a run is in the table at its end iff some succeeding xperm rule named it, and then has the bitmap of the first such rule |
| `PolicyDb.Realloc` | kernelsu/drivers/kernelsu/selinux/sepolicy.c:611-625 | The bigger table starts with the old rows |
| `PolicyDb.PolicyDb.AddType` | kernelsu/drivers/kernelsu/selinux/sepolicy.c:627-705 | A new type gets the next value, a row of its own in each of the three tables, its own bit in its attribute row, and every role; an existing name changes nothing |
| `PolicyDb.PolicyDb.AddTypeAttributeRaw` | kernelsu/drivers/kernelsu/selinux/sepolicy.c:902-936 | Sets the attribute bit in the type's row and adds the type to the expansion of every CEXPR_NAMES expression that lists the attribute |
| `PolicyDb.PolicyDb.AddTypeAttribute` | kernelsu/drivers/kernelsu/selinux/sepolicy.c:938-961 | Fails exactly when either name is missing, the type is an attribute or the attribute is not one |
| `PolicyDb.PolicyDb.KsuType` | kernelsu/drivers/kernelsu/selinux/sepolicy.c:966-969 | ksu_type has the effect of creating the type and then adding the attribute; it succeeds iff the name is not that of an attribute and the attribute existed before and is one |
| `PolicyDb.PolicyDb.Apply` | kernelsu/drivers/kernelsu/selinux/sepolicy.c:966-1040 | Each ksu_* wrapper performs the corresponding step on a well-formed policy |
| `PolicyRuns.StepKeepsWellFormed` | kernelsu/drivers/kernelsu/selinux/sepolicy.c:627-961 | Every step keeps the symbol table, the three tables and the keys of the rule table coherent |
| `PolicyRuns.RunGrows` | kernelsu/drivers/kernelsu/selinux/sepolicy.c:611-705 | Over any run: all three tables have nprim rows, row v-1 holds the type and name with value v, a new row is its own bit, older rows gain exactly the requested attribute bits, every role gains every new type |
| `PolicyNames.RunNewName` | kernelsu/drivers/kernelsu/selinux/sepolicy.c:966-974 | A name new to the policy exists after a run iff some ksu_type or ksu_attribute named it, and is an attribute iff the first of these was ksu_attribute; its value is the next one at that time |
| `PolicyNames.NewAttributeWorks` | kernelsu/drivers/kernelsu/selinux/sepolicy.c:938-974 | Once ksu_attribute has made an attribute of a new name, after any further run it can be added to every plain type, whose row gains exactly its bit |
| `PolicyNames.NewTypeIsPlain` | kernelsu/drivers/kernelsu/selinux/sepolicy.c:938-969 | A new name that ksu_type has made a type can never be added as an attribute |
| `PolicyConstraints.RunKeepsClosed` | kernelsu/drivers/kernelsu/selinux/sepolicy.c:902-961 | Constraint closure is kept by every run: a non-attribute type carrying an attribute that an expression lists is in the expression's expansion |
| `PolicyConstraints.RunGrowsNames` | kernelsu/drivers/kernelsu/selinux/sepolicy.c:902-961 | Over any run an expansion gains exactly the types to which a listed attribute was added |
| `ApkTree.FifoLevel` | kernelsu/drivers/kernelsu/throne_tracker.c:421-466 | A first-in first-out worklist yields its present items before anything they append |
| `ApkTree.FifoIsLevelOrder` | kernelsu/drivers/kernelsu/throne_tracker.c:421-466 | The worklist visits the tree level by level |
| `ApkTree.EntersExactly` | kernelsu/drivers/kernelsu/throne_tracker.c:316-351 | A subdirectory is entered iff depth is left, its name is not empty, `.` or `..` nor of the form vmdl*.tmp, and its path fits the buffer |
| `ApkTree.ChecksExactly` | kernelsu/drivers/kernelsu/throne_tracker.c:316-354 | An entry is checked as an APK iff it is named base.apk, its path fits, and it is not a directory to enter |
| `ApkPaths.LevelMember` | kernelsu/drivers/kernelsu/throne_tracker.c:336-351 | Level k holds exactly the directories that a chain of k enterable names leads to |
| `ApkPaths.VisitsEligible` | kernelsu/drivers/kernelsu/throne_tracker.c:336-351 | A directory is visited iff it is on the root's file system and reachable through at most depth enterable names |
| `ApkPaths.VisitsOnce` | kernelsu/drivers/kernelsu/throne_tracker.c:421-466 | No directory is visited twice |
| `ApkPaths.PathToInjective` | kernelsu/drivers/kernelsu/throne_tracker.c:331-334 | Different chains of names lead to different paths |
| `ThroneTracker.ThroneTracker.IterateDir` | kernelsu/drivers/kernelsu/throne_tracker.c:303-389 | One directory: subdirectories within the depth are appended in order, base.apk files are checked in order, and a manager ends it |
| `ThroneTracker.ThroneTracker.VisitFirst` | kernelsu/drivers/kernelsu/throne_tracker.c:424-462 | One turn of the cursor loop: the entry is opened only on the file system of the first directory, and is taken off either way; after a stop it is released unvisited |
| `ThroneTracker.ThroneTracker.SearchManager` | kernelsu/drivers/kernelsu/throne_tracker.c:398-475 | The safe-cursor passes visit the directories of the level order, each once, and find what checking the base.apk files in that order with the cache finds; after an early stop the visited ones are a prefix; the worklist ends empty; a start path too long for the buffer is cut off |
| `ThroneTracker.WorklistShrinks` | kernelsu/drivers/kernelsu/throne_tracker.c:411-466 | Whether or not the cursor reaches what was appended, the worklist gets lighter with every turn, and a pass that used up its last entry leaves only entries one level deeper |
| `ApkTree.NextWeight` | kernelsu/drivers/kernelsu/throne_tracker.c:411-466 | Replacing the first worklist entry by its children makes the worklist lighter by one |
| `ThroneTracker.ThroneTracker.CheckApk` | kernelsu/drivers/kernelsu/throne_tracker.c:353-385 | A base.apk whose hash is cached is only marked; otherwise it is checked, and a manager is crowned and empties the cache |
| `ThroneTracker.ThroneTracker.ResetCache` | kernelsu/drivers/kernelsu/throne_tracker.c:405-409 | Every cached hash is unmarked |
| `ThroneTracker.ThroneTracker.DropStale` | kernelsu/drivers/kernelsu/throne_tracker.c:468-474 | Exactly the hashes not seen in this search are dropped |
| `ApkCache.SearchTransparent` | kernelsu/drivers/kernelsu/throne_tracker.c:353-474 | If no manager APK has the hash of another APK, one search finds the first manager APK, as if it had checked all of them; afterwards the cache is empty if one was found and otherwise holds exactly the hashes of the paths seen |
| `ApkCache.RunsTransparent` | kernelsu/drivers/kernelsu/throne_tracker.c:353-474 | The same for every search of any sequence of searches |
| `ApkCache.CacheNeverMatters` | kernelsu/drivers/kernelsu/throne_tracker.c:353-474 | Caching affects no search of any sequence over the known paths iff no known manager APK has the hash of another known APK; collisions among managers, or among the others, do no harm |
| `ApkCache.CollisionHidesManager` | kernelsu/drivers/kernelsu/throne_tracker.c:357-369 | Any manager APK that shares the hash of another APK is missed once that one has been seen |
| `PackagePath.DecompositionUnique` | kernelsu/drivers/kernelsu/throne_tracker.c:45-82 | A path decomposes as p/pkg-s/f in at most one way |
| `PackagePath.GetPkgFromApkPath` | kernelsu/drivers/kernelsu/throne_tracker.c:45-82 | Succeeds with a name iff the path has length 1 to 255 and decomposes with that package |
| `ThroneTracker.ThroneTracker.CrownManager` | kernelsu/drivers/kernelsu/throne_tracker.c:84-117 | The first scanned package of the APK's name becomes the manager and the locked uid; otherwise nothing changes |
| `ThroneTracker.ThroneTracker.TrackThrone` | kernelsu/drivers/kernelsu/throne_tracker.c:493-607 | A pass without a package list changes nothing; otherwise a manager that is gone is dropped, a new one is searched for only then, and the allow list is pruned to the scanned packages |
| `ThroneRuns.RunsElectUncached` | kernelsu/drivers/kernelsu/throne_tracker.c:493-607 | Over every sequence of passes and calls whose trees hold known paths, with the cache carried along, manager and locked uid go exactly as if every search checked all APKs, provided no known manager APK has the hash of another known APK |
| `ThroneRuns.SearchingPassCrowns` | kernelsu/drivers/kernelsu/throne_tracker.c:493-607 | After any such run from boot, a pass that searches crowns the package of the first manager APK of its own tree and empties the cache, or finds none and leaves exactly the hashes of that tree |
| `ThroneRuns.CollisionHidesCrown` | kernelsu/drivers/kernelsu/throne_tracker.c:353-385 | A manager APK that shares the hash of another APK seen by the previous pass is not crowned, though without a cache it would be |
| `ThroneTracker.ThroneTracker.MigrateManager` | kernelsu/drivers/kernelsu/core_hook.c:373-379 | Only a caller that is the same app of another user takes over the manager uid |
| `Throne.PassElectsScanned` | kernelsu/drivers/kernelsu/throne_tracker.c:575-596 | After a completed pass over any app uids below 100000 the manager is invalid or its app id is in the scanned list |
| `Throne.SearchCrownsOwner` | kernelsu/drivers/kernelsu/throne_tracker.c:84-117 | A search that finds an APK makes u manager and locked iff u is the uid of the first scanned entry whose package the APK's path decomposes with; if no entry has it nobody is crowned |
| `Throne.PresentStays` | kernelsu/drivers/kernelsu/throne_tracker.c:567-599 | While its app id is scanned, a manager of any user stays, and so does the locked uid |
| `Throne.FirstCallTakesOver` | kernelsu/drivers/kernelsu/core_hook.c:373-379 | Among the calls after an election exactly the first one from the manager's app under another user takes over |
| `Throne.MigrationKeepsReachable` | kernelsu/drivers/kernelsu/core_hook.c:373-379 | Migration keeps the locked uid and its agreement with the manager |
| `Throne.RunKeepsReachable` | kernelsu/drivers/kernelsu/throne_tracker.c:575-599 | Every event keeps the agreement of manager and locked uid |
| `Throne.ThroneConsistent` | kernelsu/drivers/kernelsu/throne_tracker.c:84-117 | Over every run of passes and calls, the locked uid is invalid iff the manager is, and otherwise is the manager modulo 100000 |
| `Throne.PassConsistentExact` | kernelsu/drivers/kernelsu/throne_tracker.c:84-117 | Whatever uids are scanned, a pass keeps the agreement of manager and locked uid iff it crowns none or one below 100000 |
| `Throne.VacantPassElects` | kernelsu/drivers/kernelsu/throne_tracker.c:575-596 | A pass on a vacant throne elects nobody iff app id 67295, which the invalid uid has as a manager, is scanned; otherwise it elects the found package's uid |
| `Throne.VacantForever` | kernelsu/drivers/kernelsu/throne_tracker.c:575-596 | While every scan lists that app id, no run from boot ever has a manager |
| `Throne.SurvivorsScanned` | kernelsu/drivers/kernelsu/throne_tracker.c:477-491 | An allow-list entry survives a pass iff it is the preserved uid's or matches a scanned package and app id |
| `AllowList.AllowList.constructor` | kernelsu/drivers/kernelsu/allowlist.c:496-512 | The initial state: no entries, no bits, all cells -1, the two built-in default profiles |
| `AllowList.AllowList.RemoveUidFromArr` | kernelsu/drivers/kernelsu/allowlist.c:37-64 | Removes every copy of a uid from the array, keeps the order of the others and refills the rest with -1 |
| `AllowList.AllowList.SetBit` | kernelsu/drivers/kernelsu/allowlist.c:222-228 | Sets or clears one bit of the bitmap and no other |
| `AllowList.AllowList.SetAppProfile` | kernelsu/drivers/kernelsu/allowlist.c:177-261 | Replaces the entry with the same uid and key or appends one, updates the index unless the array is full, and then the cached default profiles |
| `AllowRuns.SetStores` | kernelsu/drivers/kernelsu/allowlist.c:153-261 | A profile below version 2, or granting with more than 32 groups or no domain, changes nothing; any other replaces its app's entry or is appended, and decides the uid's index and the two default profiles, unless a high uid's grant finds all 1024 cells in use |
| `AllowList.AllowList.AllowUid` | kernelsu/drivers/kernelsu/allowlist.c:263-292 | Answers from the index, after the checks for root, system uids and the manager |
| `AllowList.AllowList.UidShouldUmount` | kernelsu/drivers/kernelsu/allowlist.c:294-317 | Answers from the first entry of the uid, or from the default |
| `AllowList.AllowList.PruneAllowlist` | kernelsu/drivers/kernelsu/allowlist.c:453-483 | Drops the refused entries in place and clears their uids from the index |
| `AllowRuns.PruneIsFilter` | kernelsu/drivers/kernelsu/allowlist.c:453-483 | Pruning keeps exactly the accepted entries in order, and a uid stays indexed iff none of its entries was dropped |
| `AllowRuns.IndexIsLastDecision` | kernelsu/drivers/kernelsu/allowlist.c:222-240 | Over any run a uid is indexed iff the last successful decision for it allows it and none of its entries has been pruned since |
| `AllowRuns.RunKeepsCoherent` | kernelsu/drivers/kernelsu/allowlist.c:37-64 | Over any run uid/key pairs stay distinct, profiles valid, and the live cells above BITMAP_UID_MAX and at most 1024 |
| `AllowRuns.SetAgreesExact` | kernelsu/drivers/kernelsu/allowlist.c:222-240 | After a successful decision index and scan agree for its uid iff it allows or no entry with another key allows |
| `AllowRuns.StepAgreesExact` | kernelsu/drivers/kernelsu/allowlist.c:177-483 | One operation keeps index and scan in agreement iff it passes that test |
| `AllowRuns.IndexIsScan` | kernelsu/drivers/kernelsu/allowlist.c:177-292 | Throughout any run the index equals a scan of the list for allow_su iff each operation passes a test made before it: no refusal beside another entry that allows, no overflow of an unindexed uid, no dropped entry beside a kept one that allows |
| `AllowRuns.GrantConflictExact` | kernelsu/drivers/kernelsu/allowlist.c:222-317 | A uid that has just been granted is unmounted for iff its first entry has another key and unmounts, with the default as the grant leaves it |
| `AllowRuns.ConflictExact` | kernelsu/drivers/kernelsu/allowlist.c:177-317 | Throughout any run an indexed uid is never unmounted for iff each set passes a test on the uid's first entry made before it; pruning never does harm |
| `AllowRuns.AllowedIsNotUmounted` | kernelsu/drivers/kernelsu/allowlist.c:294-317 | In such runs from boot an allowed uid is never unmounted for |
| `AllowRuns.SimpleRuns` | kernelsu/drivers/kernelsu/allowlist.c:177-317 | Runs in which each uid has at most one entry and nothing overflows pass both tests |
| `AllowRuns.FirstEntryUnmounts` | kernelsu/drivers/kernelsu/allowlist.c:294-317 | A refused entry followed by a granted one: index and scan agree, and the indexed uid is unmounted for |
| `AllowRuns.LastEntryUnindexes` | kernelsu/drivers/kernelsu/allowlist.c:222-292 | A granted entry followed by a refused one: the list allows the uid, the index does not |
| `AllowRuns.AllowedExactly` | kernelsu/drivers/kernelsu/allowlist.c:263-292 | After any run from boot: uid 0 is allowed in KernelSU's domain only, of the others below 2000 only 1000 can be, and any other is iff it is the valid manager or was last decided so |
| `AllowRuns.UnmountedExactly` | kernelsu/drivers/kernelsu/allowlist.c:294-317 | The manager is never unmounted for; else the first entry decides, by its own setting or the default, and without one the default does |
| `AllowList.AllowList.DoSaveAllowList` | kernelsu/drivers/kernelsu/allowlist.c:354-394 | Writes magic, version and one record per entry in list order |
| `AllowList.AllowList.DoLoadAllowList` | kernelsu/drivers/kernelsu/allowlist.c:396-451 | Refuses another magic, then sets one profile per record; a record that the file cuts short is completed by what the buffer held |
| `AllowRecord.RecordRoundTrip` | kernelsu/drivers/kernelsu/ksu.h:35-88 | The 776-byte struct app_profile with the layout of a 64-bit machine, padding included, gives back every profile whose numbers fit their fields, whose strings end inside their arrays, and whose group array has 32 entries |
| `AllowBytes.RecordBytes` | kernelsu/drivers/kernelsu/ksu.h:35-88 | Every field of a record is at its offset in the struct, lowest byte first: version 0, key 4, uid 260, flags 264, 272 and 273, and the root profile from 536 on |
| `AllowBytes.SavedBytes` | kernelsu/drivers/kernelsu/allowlist.c:354-394 | A saved file is the eight bytes of magic 0x7f4b5355 and version 3 and then the records one after the other |
| `AllowBytes.LoadedBytes` | kernelsu/drivers/kernelsu/allowlist.c:396-446 | A file that is shorter than the two words or does not begin with the magic's bytes loads nothing |
| `AllowFile.StructFaithful` | kernelsu/drivers/kernelsu/ksu.h:65-88 | So that record format is one the following results are about |
| `AllowFile.RunRepresentable` | kernelsu/drivers/kernelsu/allowlist.c:177-261 | Every run of sets of such profiles leaves a list of such profiles |
| `AllowFile.LoadSavedRun` | kernelsu/drivers/kernelsu/allowlist.c:396-446 | Loading a saved list of profiles that fit a record is setting its entries one after the other |
| `AllowFile.LoadSaved` | kernelsu/drivers/kernelsu/allowlist.c:354-446 | From the initial state a list of profiles that fit a record comes back in order; if the array suffices each uid's index is that of its last record, the defaults are the last such records' or the built-in ones, and everything is restored iff the last entries were current |
| `AllowFile.SaveLoadRestores` | kernelsu/drivers/kernelsu/allowlist.c:354-446 | After a tidy run that sets profiles that fit a record, the list, the index of every app and both default profiles come back, and the whole state iff the preserved uid's last record agrees with its index |
| `AllowFile.TidyFits` | kernelsu/drivers/kernelsu/allowlist.c:232-246 | After a tidy run the array suffices: each allowed uid above the bitmap holds a cell of its own |
| `AllowFile.AgreeingEntriesRestore` | kernelsu/drivers/kernelsu/allowlist.c:396-446 | It does when the preserved uid's entries agree |
| `AllowFile.DisagreeingEntriesDiffer` | kernelsu/drivers/kernelsu/allowlist.c:396-446 | A run of three sets of profiles that fit a record where they do not, and the index differs after loading |
| `MountTable.IdaAlloc` | kernelsu/patches/e404_ksu_susfs_hooks.patch:321-331 | Returns the least free id from a minimum on |
| `MountTable.MountTable.AllocVfsmnt` | kernelsu/patches/e404_ksu_susfs_hooks.patch:404-432 | Takes a normal id, a sus id, or the given id without taking it from a pool |
| `MountTable.MountTable.VfsKernMount` | kernelsu/patches/e404_ksu_susfs_hooks.patch:436-461 | A KSU mount gets a sus id, a zygote mount shows a fake id and keeps its own as backup, others get a normal id |
| `MountTable.MountTable.CloneMnt` | kernelsu/patches/e404_ksu_susfs_hooks.patch:470-530 | The pool follows the caller's domain, the flags and the old mount's id; a zygote single clone shows a fake id |
| `MountTable.MountTable.CopyMntNs` | kernelsu/patches/e404_ksu_susfs_hooks.patch:579-631 | Clones every mount, renumbers the visible ones for zygote and records the next fake id |
| `MountTable.MountTable.RenumberVisible` | kernelsu/patches/e404_ksu_susfs_hooks.patch:610-626 | The list loop gives every non-sus mount the next id and keeps the old one as backup |
| `MountTable.MountTable.MntFreeId` | kernelsu/patches/e404_ksu_susfs_hooks.patch:338-361 | Returns one id to the pool that the thresholds point to |
| `MountTable.MountTable.MntAllocGroupId` | kernelsu/patches/e404_ksu_susfs_hooks.patch:365-385 | The mount's group id comes from the sus pool iff its mount id is sus |
| `MountTable.MountTable.MntReleaseGroupId` | kernelsu/patches/e404_ksu_susfs_hooks.patch:386-399 | A group id returns to the pool that its threshold points to and the mount has none any more |
| `MountIds.KernMountShows` | kernelsu/patches/e404_ksu_susfs_hooks.patch:436-461 | A new mount takes the least free sus id if KernelSU makes it and else the least free normal one, and shows it; for zygote it shows the task's next fake id, which then is one more, and keeps its own as backup |
| `MountIds.CloneShows` | kernelsu/patches/e404_ksu_susfs_hooks.patch:470-530 | The same for a clone: a sus mount if KernelSU makes it alone, or if made of a sus mount by zygote or for a new namespace; only zygote's single clones show fake ids |
| `MountIds.UnshareShows` | kernelsu/patches/e404_ksu_susfs_hooks.patch:495-503 | KernelSU's copy for a new namespace shows the old mount's id, takes none and bears the mark; of a mount that shows 0 it takes a sus id |
| `MountRuns.ShownConsecutive` | kernelsu/patches/e404_ksu_susfs_hooks.patch:455-528 | In any run the ids that one task's zygote mounts show are consecutive from its next fake id on, whatever others do meanwhile |
| `MountRuns.ShownAfterCopy` | kernelsu/patches/e404_ksu_susfs_hooks.patch:579-631 | After a zygote's namespace copy they go on where the copy's visible ids end |
| `MountRuns.ShownAfterOtherCopy` | kernelsu/patches/e404_ksu_susfs_hooks.patch:626-631 | After anybody else's copy they start from 0 |
| `MountIds.FreeReturnsOwned` | kernelsu/patches/e404_ksu_susfs_hooks.patch:338-361 | mnt_free_id returns exactly the id the mount owns to its own pool, or nothing for a KSU unshare copy |
| `MountIds.KernMountExact` | kernelsu/patches/e404_ksu_susfs_hooks.patch:436-461 | A new mount keeps every live mount an id of its own that freeing finds iff: KernelSU makes it, or a normal id is free, and for zygote its fake id is below 100000 and id 0 is taken or the fake id is 0 |
| `MountIds.CloneExact` | kernelsu/patches/e404_ksu_susfs_hooks.patch:470-530 | So does a clone iff its demand holds: the copied id is not 0 for a KernelSU unshare, the same as a new mount's for a visible one, nothing for a sus copy, and for a sus mount that zygote clones alone that the fake id happens to be the new sus id |
| `MountCopies.CopyMntNsExact` | kernelsu/patches/e404_ksu_susfs_hooks.patch:579-631 | So does a namespace copy iff each visible mount finds a normal id, KernelSU copies no id 0, and for zygote the first mount is visible, if any is, and the numbers from the least free id on stay below 100000 |
| `MountCopies.CopyTreeExact` | kernelsu/patches/e404_ksu_susfs_hooks.patch:579-603 | The clones of a namespace copy own ids of their own iff each finds one |
| `MountCopies.RenumberExact` | kernelsu/patches/e404_ksu_susfs_hooks.patch:610-626 | Renumbering copies keeps freeing right iff every number given stays below 100000 |
| `MountRuns.RunKeepsOwned` | kernelsu/patches/e404_ksu_susfs_hooks.patch:321-631 | Throughout any run live mounts own pairwise distinct ids and freeing returns exactly those, iff every operation meets its demand |
| `MountCopies.RenumberConsecutive` | kernelsu/patches/e404_ksu_susfs_hooks.patch:610-626 | Renumbering gives the visible mounts consecutive ids in list order and leaves sus mounts and all others alone |
| `MountCopies.ZygoteCopyConsecutive` | kernelsu/patches/e404_ksu_susfs_hooks.patch:579-631 | In a zygote's copied namespace whose first mount is visible, the visible ids are consecutive from the least free one on, each mount's own id is its backup, and the next fake id follows |
| `MountIds.FullPoolMisleads` | kernelsu/patches/e404_ksu_susfs_hooks.patch:321-361 | With no normal id below 100000 free, the next normal id is freed to the sus pool |
| `MountGroups.FoundingTakes` | kernelsu/patches/e404_ksu_susfs_hooks.patch:365-385 | A group id is the least free one from 1000 on for a sus mount and the least free one from 1 on for any other |
| `MountGroups.ReleaseFollowsNumber` | kernelsu/patches/e404_ksu_susfs_hooks.patch:386-399 | An id from 1000 on goes back to the sus pool, any other to the normal one |
| `MountGroups.AllocExact` | kernelsu/patches/e404_ksu_susfs_hooks.patch:365-399 | Founding a group keeps ids shared by peers only and told apart by the threshold iff the mount is sus or a normal one below 1000 is free |
| `MountGroups.JoinKeepsOwned` | kernelsu/patches/e404_ksu_susfs_hooks.patch:365-399 | A mount that inherits a group id joins its peers and keeps them told apart from all others |
| `MountGroups.LeaveReturnsOwned` | kernelsu/patches/e404_ksu_susfs_hooks.patch:386-399 | Releasing by the last peer gives exactly the group's id back to the pool it came from; any other peer leaves both pools alone |
| `MountGroups.GroupRunsOwned` | kernelsu/patches/e404_ksu_susfs_hooks.patch:365-399 | Throughout any run of founding, inheriting and leaving groups, exactly the peers share an id, each taken in the pool its number tells and nothing else is taken, iff no normal group id is taken while all below 1000 are |
| `ZipEnd.SignatureMeaning` | kernelsu/drivers/kernelsu/apk_sign.c:208-210 | The disguised comparison holds iff the four bytes are the end record's signature |
| `ZipEnd.TryLength` | kernelsu/drivers/kernelsu/apk_sign.c:202-213 | One turn of the scan succeeds iff the comment length and the signature match, where the record lies inside the file, and never when the length field is there and differs |
| `ZipEnd.FindEocd` | kernelsu/drivers/kernelsu/apk_sign.c:202-221 | The scan stops at the least comment length that matches; in a file of at least 65557 bytes it fails within 65536 steps if none does |
| `ApkCheck.EndRecordFound` | kernelsu/drivers/kernelsu/apk_sign.c:202-221 | For an archive without a smaller false match that is the real end record of APPNOTE section 4.3.16, which points to the central directory |
| `ApkCheck.FindBlock` | kernelsu/drivers/kernelsu/apk_sign.c:219-234 | From the end record on, a block is accepted iff the magic is there and both size fields agree, and the position is then the first pair's |
| `ApkSign.CheckBlock` | kernelsu/drivers/kernelsu/apk_sign.c:77-122 | Accepts iff the certificate matches; the position advances as much as the offset, iff the expected size is at most 4096 or the certificate's differs |
| `ApkSign.VisitPair` | kernelsu/drivers/kernelsu/apk_sign.c:245-268 | One pair: whatever the check did with it, the position ends up behind the pair |
| `ApkSign.WalkOne` | kernelsu/drivers/kernelsu/apk_sign.c:236-269 | The trailing size is never taken for a pair's length nor the other way round |
| `ApkSign.WalkPairs` | kernelsu/drivers/kernelsu/apk_sign.c:236-269 | For every well-formed block the loop visits exactly the first ten pairs, in order |
| `SigningBlock.TallyCounts` | kernelsu/drivers/kernelsu/apk_sign.c:247-266 | The loop's counters count the v2/v3 pairs and record any v3.1 pair |
| `SigningBlock.TallyMeaning` | kernelsu/drivers/kernelsu/apk_sign.c:271-278 | One block counted and valid, iff exactly one v2/v3 pair is there and its certificate matches |
| `ZipEntries.NextEntry` | kernelsu/drivers/kernelsu/apk_sign.c:146-172 | One step of the entry walk lands on the next local header (APPNOTE section 4.3.7) |
| `ZipEntries.HasV1SignatureFile` | kernelsu/drivers/kernelsu/apk_sign.c:139-175 | Finds a manifest iff some entry is named META-INF/MANIFEST.MF |
| `ApkCheck.CheckV2Signature` | kernelsu/drivers/kernelsu/apk_sign.c:177-304 | A well-formed archive is accepted iff among its first ten pairs there is exactly one v2/v3 pair, it matches, there is no v3.1 pair, and no entry is a v1 manifest; a file without an end record, magic or agreeing size fields is refused; a certificate above 4096 bytes never matches |
| `SignerBytes.CertMatchesMeans` | kernelsu/drivers/kernelsu/apk_sign.c:77-122 | A value's certificate matches iff the value is a signer, that is three lengths, digests, and a first certificate each with its length, whose certificate has the expected size, at most 4096, and the expected hash |
| `ApkCheck.AcceptableMeans` | kernelsu/drivers/kernelsu/apk_sign.c:177-304 | The verdict on a well-formed archive in terms of its bytes: one of the first ten pairs has id 0x7109871a or 0xf05368c0 and the expected certificate, no other has these ids, none has 0x1b93ad61, and no entry is named META-INF/MANIFEST.MF |
| `NumberText.ParsePrinted` | tools/mkdtboimg.py:53-75 | Decimal text, zero included, octal text after 0 and hexadecimal text after 0x are read back as the same number |
| `NumberText.CaseDoesNotMatter` | tools/mkdtboimg.py:53-75 | Upper-case text, digits and prefix, is the same number |
| `NumberText.DigitPlace` | tools/mkdtboimg.py:53-75 | A digit's value is its place among the sixteen digits, in either case |
| `NumberText.ParsesDigits` | tools/mkdtboimg.py:53-75 | Text is a number in a base iff it is not empty and all its characters are digits below the base |
| `DtboLayout.LayoutTiles` | tools/mkdtboimg.py:499-522 | The unshared blobs tile the space from behind the table to the end without gap or overlap, and each entry uses one of them |
| `DtboLayout.LayoutHolds` | tools/mkdtboimg.py:499-522 | Every entry's range of the buffer holds its own file's blob, shared or not |
| `DtboLayout.OffsetsExact` | tools/mkdtboimg.py:509-519 | Entries at the same offset have the same path and compression iff every empty unshared blob agrees with its successor |
| `DtboLayout.EmptyFileSharesOffset` | tools/mkdtboimg.py:509-519 | An empty file followed by another is an exception |
| `DtboWords.UnpackPack` | tools/mkdtboimg.py:303-308 | 32-bit words written big-endian are read back |
| `DtboWords.TableAt` | tools/mkdtboimg.py:325-327 | Row i of the table is entry i's words |
| `DtboImage.NewEntry` | tools/mkdtboimg.py:77-112 | An entry is made iff the version is 0 or 1, no key is missing and every number parses |
| `DtboImage.RowArgsParse` | tools/mkdtboimg.py:325-337 | A table row printed as text arguments and parsed again keeps its numbers |
| `DtboImage.ImageHolds` | tools/mkdtboimg.py:568-579 | In an image every entry's range holds its blob, which decodes to the file's bytes |
| `DtboImage.ImageSize` | tools/mkdtboimg.py:499-524 | The written file ends where the tiling of its blobs ends |
| `DtboBytes.ReadableBytes` | tools/mkdtboimg.py:293-367 | A file is readable iff its bytes say so: magic, header and entry size 32, a table inside the file, and version 0 or 1 |
| `DtboBytes.RowBytes` | tools/mkdtboimg.py:310-339 | Each field of entry i is the big-endian number at its place in the row |
| `DtboBytes.ExtractedBytes` | tools/mkdtboimg.py:526-555 | What is extracted for a row, by the low four bits of its flags word: the range itself for 0 or version 0, decompressed for 1 and 2, an error otherwise |
| `DtboBytes.ImageRow` | tools/mkdtboimg.py:499-579 | In a built image the row's numbers are at their places, and the range that it gives holds the file itself if version or low flags bits are 0, its zlib form if they are 1 and its gzip form if they are 2 |
| `DtboBytes.ImageFits` | tools/mkdtboimg.py:247-281 | All numbers fit 32 bits iff the file's length, the page size and the entries' own numbers do |
| `Dtbo.Dtbo.Init` | tools/mkdtboimg.py:387-417 | A page size starts an empty image, its absence reads the file |
| `Dtbo.Dtbo.FindDtEntryWithSameFile` | tools/mkdtboimg.py:369-385 | The first entry with this file |
| `Dtbo.Dtbo.PlaceEntry` | tools/mkdtboimg.py:508-519 | An entry shares the place of the first entry with its file iff the compression is the same, and else gets the next free one |
| `Dtbo.Dtbo.AddDtEntries` | tools/mkdtboimg.py:477-524 | Refuses an empty list, a second list and unsupported compression; otherwise every entry has its place, and the header counts entries and bytes |
| `Dtbo.PackInto` | tools/mkdtboimg.py:240-264 | Overwrites exactly the words' bytes, or fails iff a word needs more than 32 bits |
| `Dtbo.Dtbo.UpdateMetadata` | tools/mkdtboimg.py:269-281 | Every byte of the space-filled buffer is overwritten: it is exactly header and table |
| `Dtbo.Dtbo.Commit` | tools/mkdtboimg.py:557-579 | The file becomes metadata and blobs from its start; on an error it is untouched |
| `Dtbo.Dtbo.ReadHeader` | tools/mkdtboimg.py:283-308 | Accepts exactly the two magics with 32-byte header and entries |
| `Dtbo.Dtbo.ReadEntries` | tools/mkdtboimg.py:310-339 | One entry per row, in order, with the row's numbers |
| `Dtbo.Dtbo.ReadImage` | tools/mkdtboimg.py:341-367 | Succeeds iff the file is readable, and then holds its header and entries |
| `Dtbo.Dtbo.ExtractDtFile` | tools/mkdtboimg.py:526-555 | Writes the entry's range, decompressed on demand; fails for a bad index (negative ones count from the end) or an unknown format |
| `Dtbo.CreateDtboImage` | tools/mkdtboimg.py:839-854 | Writes an image of the files, whose bytes are described number by number, whose total_size is its length, and whose stored ranges are compressed as the flags words say; refused iff the page size is 0, the list is empty, a version 1 entry has low flags bits above 2, or the length, the page size or an entry's number needs more than 32 bits |
| `Dtbo.DumpDtboImage` | tools/mkdtboimg.py:856-875 | Yields what each entry of a readable file extracts to |
| `DtboDecode.ReadsBack` | tools/mkdtboimg.py:293-367 | For versions 0 and 1 and fields below 2^32, every header field and every entry is read back in order |
| `DtboDecode.BuildThenExtract` | tools/mkdtboimg.py:499-579 | Extracting entry i of a built image gives file i's bytes, given an inverse pair of compression and decompression, and its blob without decompression |

## Left out

- set_type_state, add_type_rule and the type transition wrappers: one table write each, settled by reading one branch.
- add_filename_trans and add_genfscon: key layouts that differ between kernels, and a stub.
- The 16-bit width of the rule table's key fields, allocation failures, and the variants of add_type for other kernels, which build the same tables.
- Two classes with the same common block hold copies of it, since a class is a value here.
- ksu_*xperm with removal: the wrappers never ask for it, and clearing bits of a fresh bitmap stores an empty one (`XpermBits`).
- The scan that builds the list of package uids, from `packages.list` or the user data directory: the list is a parameter of a pass.
- The optional build-time package name of the manager.
- The table of certificate sizes and hashes in ksu_is_manager_apk: its verdict is a parameter of the search, and size and hash are parameters of the check.
- AllowList.AllowList.SetAppProfile: saving in the background is not part of the state.
- Throne.PassElectsScanned: locking, retries and work queues are left out; events happen one after the other.
- How a clone comes to inherit its peers' group id, and when the last of them leaves, is kernel code outside the patch; both are steps of `MountGroups`.
- The name of a root profile template and the padding of a record: written as zeros, since no modelled operation reads them.
- A fake id inherited by a forked task, and the upper bound of an IDA.
- ApkCheck.CheckV2Signature: the full verdict is stated for well-formed archives (`ArchiveOk`); for other files only the refusals.
- ZipEnd.TryLength: where a read would start before the file, the source compares bytes that no read has filled, so nothing is stated.
- ZipEnd.FindEocd: for the same reason nothing is stated for a file below 65557 bytes without a match.
- ZipEntries.NextEntry: entries whose sizes are stored in a data descriptor are outside the well-formed archives.
- NumberText.ParsePrinted: underscores, blanks and non-ASCII digits that Python also accepts in a number are not modelled.
- Dtbo.Dtbo.AddDtEntries: the entry objects are distinct, as the argument parser makes them, and an uncompressed file is read from its start; after an unsupported format the entries before it stay added.
- Dtbo.CreateDtboImage: the output file is empty, as opening it for writing leaves it.
- Dtbo.Dtbo.UpdateMetadata: header versions other than 0 and 1 are excluded; no entry of such a version can be made.
- Dtbo.Dtbo.ExtractDtFile: that decompressing damaged data fails is left to the decompression parameter.
- Argument and configuration parsing, usage text, real-path lookup and printing of an image.
- Prctl dispatch, hooks, SELinux contexts, user copies, susfs registries, shell scripts and the other hunks of the patches: no algorithm of their own, or no visible semantics.
- `ksu_susfs_hooks.patch` repeats the mount-id logic and is modelled once.
