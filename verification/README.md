# Verified model of the in-memory core of libelektra

The heart of libelektra is a key database in memory: hierarchical key names, keysets that are sorted
by name, a trie that says which backend a name is mounted at, and the machinery that divides a keyset
among the backends and stores it in two phases. This project models that core, and the index structures
and codecs beside it, in Dafny, and proves what the code promises about them. It verifies with
`dafny verify dfyconfig.toml`.

Code that changes things in place is modelled in place: keys and keysets are classes whose methods
reassign the array and move the cursor, the trie splits its nodes in the heap, heap, stack and edge lists
live in arrays, escaping writes into buffers. Each of these methods is proved against functions on values,
and the main results are lemmas about these functions, or methods that perform arbitrary runs.

## Modules

- `Bytes` bytes, NUL-free strings, the lexicographic order.
- `Escaping`, `EscapingBuffers` escaping of a key name part, as functions and as the loops over buffers.
- `Levels` tokenising a name into levels with backslash parity.
- `KeyNames`, `NamedKeys` canonical names as a root and parts, the fold over levels behind `keyAddName`,
  and the class with the escaped and the unescaped name.
- `PrefixMaps`, `Tries`, `Mounts` longest prefix as a specification, the compressed trie, mounting.
- `KeyOrder`, `Below` the total order of keys, subtrees as intervals, the below relation.
- `KeySets`, `Cuts`, `References`, `Runs` the keyset as a sorted array that represents a finite map, `ksCut`,
  reference counters across any number of keysets that share keys, and runs of arbitrary operations on them
  against a model on values that has exactly one outcome.
- `Openings`, `Buildups` the parts that mounting records when the database is opened, and the selection of
  those that a parent key needs.
- `Postprocessing`, `Splits`, `KdbSets`, `KdbGets` dividing, filtering and merging by backend, `kdbSet` as a
  step machine for plugins that may answer anything, `kdbGet`, and what one remembers for the other.
- `Growth`, `Vstacks`, `Vheaps`, `Opmphms` arrays that double and halve with their amortised cost, stack,
  heap, and the mapping step of the order preserving minimal perfect hash map.
- `ArrayNames`, `Base64`, `Base64Plugin` names of array elements, Base64 (section 4 of RFC 4648) and the
  plugin that tags values.

## How some things are represented

- A name is a root (a namespace, or empty for cascading names) and a list of escaped parts. `Name.Render`
  is the string the code stores, without its terminator.
- What identifies a key inside a keyset, name and owner, is constant. The code locks the name when a key is
  appended; that nobody changes the owner is an assumption.
- A keyset keeps two ghost fields, the sequence of its keys and the map from identities to keys. `Valid`
  ties both to the array: sorted, `size < alloc`, a null pointer behind the last key (after `ksClear` only
  once there is a key again, as in the code).
- `Accounts (ext)` says that each counter is one for this keyset, if it holds the key, plus `ext`, the
  holders this keyset does not know. `References` instantiates `ext` with the other keysets and the
  references from outside; `Runs` shows that the total is right after any run of operations.
- A run is told by snapshots: the sequences of keys and the maps of all keysets, the references from outside,
  and the keys that are freed. What is permitted depends on the snapshot alone.
- The memory of a freed key is not taken away; a flag says that it is freed.
- What plugins answer is a function from calls to return codes. `TraceOnce` shows that no call is repeated,
  so such a function describes every behaviour.
- The value of a trie entry may stand beside the edge or, if it is newer, in the child below the edge.
  `SlotGet` is the rule that tells which one counts, and it is part of the trie's invariant.

## Where the code and its documentation differ

The model follows the code.

- `keyAddName` returns 0 whenever the size is the same as before, also if the name changed (`AddName`);
  `SameSizeOtherName` has such a name.
- `keySetName` returns 1 for "/", the documentation says 2 (`SetName`).
- `keySetBaseName` with a null pointer turns "/a" into "", and an empty base name is stored as "%"
  (`SetBaseName`).
- `elektraValidateKeyName` never looks at the first byte, so names of backslashes only can be accepted
  wrongly. `AcceptedIsRight` and `AddedIsCanonicalExactlyIf` have the exact condition for the check and for
  the result of adding, `LoneBackslashIsAccepted` the input.
- `keyIsDirectBelow` counts the namespace of the key also if the other name is cascading. Then it may take a
  key several levels down for a direct one, or read behind the name: `DirectBelowOfCascading` says when.
- `ksCut` stops at the first key that does not match. With cascading keys in the keyset this can be before
  the cutpoint itself; `CutsAllExactlyIf` has the exact condition, `CutCanStopEarly` the keyset.
- `ksClear` leaves the position of the cursor where the loop ended (`Clear`).
- `splitSync` returns minus the position minus 2, the documentation has codes for namespaces, and `kdbSet`
  combines this with a bitwise or. `ReportedPart` tells when the message names the right part.
- A failing plugin at or behind the commit slot causes a warning only: `kdbSet` still returns 1, although not
  everything may be stored (`SetCommit`, `Store`).
- After success `kdbSet` clears the sync flag of all keys, also of those that no part took (`KdbSet`).
- `splitGet` tests bit 0 as a mask, which is never set, so no part is skipped, although the comment speaks of
  keysets that come from the user. `FilterKeepsNamespace` says what the filter keeps in general, and
  `AppointedBelongs` that it takes nothing but names that cannot be stored from the parts that mounting records.
- `kdbGet` sets the remembered sizes to 0 before it knows whether an update is needed. If it returns 0, the
  next `kdbSet` stores every part that has keys, although no key needs sync (`SetAfterIdleGet`).
- `splitBuildup` shall add all backends below the parent key. In the fallback mode of `mountDefault` it may miss the
  default backend in `system`: `FallbackMisses` has the case, `CoversExactlyIf` the exact condition, and
  `BuiltUpCovers` shows that nothing else is missed.
- `elektraArrayValidateName` accepts leading zeros and anything behind the digits; `WrittenExactlyIf` has the
  exact condition.
- `base64Decode` accepts padding inside the string and then leaves the end of its buffer unwritten;
  `WrittenFits` has the exact condition, `BufferNotFilled` an input.

## Model

| member | source | states |
|---|---|---|
| `Escaping.UnescapeEscape` | src/libs/elektra/internal.c:515-661 | unescaping an escaped string gives the string back, for every byte string |
| `Escaping.EscapeUnescape` | src/libs/elektra/internal.c:704-820 | escaping an unescaped valid part gives the part back, so parts and strings are in bijection |
| `Escaping.EscapeIsValid` | src/libs/elektra/keyname.c:846-849 | an escaped string is a valid part and fits, with its terminator, into 2 * length + 2 bytes |
| `Escaping.EscapeInserts` | src/libs/elektra/internal.c:704-820 | escaping puts backslashes in and changes nothing else; the empty string becomes the one special part |
| `Escaping.EscapePlain` | src/libs/elektra/internal.c:704-747 | without slashes and backslashes only the strings %, . and .. are changed at all |
| `Escaping.EscapeDoubles` | src/libs/elektra/internal.c:770-820 | a run of backslashes in front of a slash is doubled and one more is put in; at the end it is doubled |
| `Escaping.UnescapeNulFree` | src/libs/elektra/internal.c:593-661 | unescaping never makes a part longer and never produces a NUL |
| `EscapingBuffers.EscapePartBegin` | src/libs/elektra/internal.c:704-747 | the special cases at the beginning of a part: written completely and reported, or the buffer is untouched |
| `EscapingBuffers.EscapePart` | src/libs/elektra/internal.c:770-820 | the buffer loop writes the escaped string and its terminator, and the bytes behind stay |
| `EscapingBuffers.UnescapePartBegin` | src/libs/elektra/internal.c:515-582 | the special cases when unescaping, as above; done or not, at most the terminator is written behind them |
| `EscapingBuffers.UnescapePart` | src/libs/elektra/internal.c:604-661 | the pointer loop with its backslash counter writes the unescaped part behind what was there, and nothing behind that |
| `EscapingBuffers.EscapedCopy` | src/libs/elektra/keyname.c:846-852 | both escaping functions together build the escaped form in a buffer of 2 * length + 2 bytes |
| `Levels.OneLevel` | src/libs/elektra/keyhelpers.c:91-132 | each call finds the first level of the declarative split of what is left; repeated slashes count once |
| `Levels.SplitPath` | src/libs/elektra/keyhelpers.c:91-132 | joining well-escaped parts with slashes and splitting again gives the parts back |
| `Levels.SplitConcat` | src/libs/elektra/keyhelpers.c:91-132 | splitting is compositional at a separating slash |
| `Levels.PathPrefix` | src/libs/elektra/trie.c:53-72 | with a slash appended to both, one path begins another as a string exactly when its parts do |
| `KeyNames.ParseRender` | src/libs/elektra/keyname.c:378-387 | a canonical name can be read back from its string: rendering is injective |
| `KeyNames.AddedIsCanonical` | src/libs/elektra/keyname.c:953-1012 | the sum of a canonical name and a name that ends in an even run of backslashes is canonical |
| `KeyNames.AddedIsCanonicalExactlyIf` | src/libs/elektra/keyname.c:953-1012 | for every name that passes the check: the sum is canonical if and only if the name is not an odd run of backslashes and nothing else; otherwise its levels are not well escaped |
| `KeyNames.StrayIsLastLevel` | src/libs/elektra/internal.c:652-661 | the levels of such a sum end in the odd run: unescaping it fails the assertion behind the loop |
| `KeyNames.SameSizeOtherName` | src/libs/elektra/keyname.c:953-1012 | user/a and ../b: the name changes but its size does not, for which 0 is returned |
| `KeyNames.AddCanonicalPath` | src/libs/elektra/keyname.c:953-1012 | adding a path that is already canonical appends exactly its parts, so re-adding is the identity |
| `KeyNames.AddInTwoSteps` | src/libs/elektra/keyname.c:953-1012 | adding a/b is adding a and then b |
| `KeyNames.AddLevel` | src/libs/elektra/keyname.c:953-1012 | what a single level does: "." nothing, ".." takes the last part away if there is one, anything else is appended |
| `KeyNames.DotsChangeNothing` | src/libs/elektra/keyname.c:982-988 | a "." level at the beginning, in the middle or at the end changes nothing, nor does a doubled slash |
| `KeyNames.UpFromRoot` | src/libs/elektra/keyname.c:889-917 | ".." at a bare root changes nothing |
| `KeyNames.AddThenUp` | src/libs/elektra/keyname.c:889-917 | going down one part and then up by ".." changes nothing |
| `KeyNames.EscapedIsOneLevel` | src/libs/elektra/keyname.c:839-876 | an escaped string is one level, however many slashes it contains |
| `KeyNames.AcceptedIsRight` | src/libs/elektra/internal.c:451-468 | the backslash check is right if and only if the name is not made of backslashes only |
| `KeyNames.LoneBackslashIsAccepted` | src/libs/elektra/internal.c:451-468 | the concrete input for which the check is wrong: a single backslash |
| `KeyNames.UnescapedNameLength` | src/libs/elektra/internal.c:673-697 | the unescaped name fits into as many bytes as the escaped one takes with its terminator |
| `NamedKeys.UnescapeName` | src/libs/elektra/internal.c:673-697 | the buffer holds the unescaped parts, each closed by a NUL |
| `NamedKeys.ValidateKeyName` | src/libs/elektra/internal.c:451-468 | the backwards walk computes the check above |
| `NamedKeys.CountLevels` | src/libs/elektra/keyname.c:889-917 | number, start and size of the last level of a canonical name |
| `NamedKeys.ScanBack` | src/libs/elektra/keyname.c:706-723 | walking back from the terminator stops at the last part of the unescaped name |
| `NamedKeys.NamedKey.FinalizeName` | src/libs/elektra/keyname.c:378-387 | the unescaped name is recomputed from the canonical one |
| `NamedKeys.NamedKey.RemoveOneLevel` | src/libs/elektra/keyname.c:889-917 | pops the last part, but never the namespace or the root |
| `NamedKeys.NamedKey.WalkLevels` | src/libs/elektra/keyname.c:977-1004 | the loop gives the sum, which AddLevel and AddInTwoSteps determine level by level |
| `NamedKeys.NamedKey.AddName` | src/libs/elektra/keyname.c:953-1012 | keyAddName: the canonical sum, and every error and zero return with its exact condition, "." and ".." at a root spelled out; names whose sum fails an assertion are excluded |
| `NamedKeys.NamedKey.SetName` | src/libs/elektra/keyname.c:513-577 | keySetName without owner: empty and meta names, errors, and for any other name what SetCascading and SetNamespaced say |
| `NamedKeys.SetCascading` | src/libs/elektra/keyname.c:513-577 | a name with a slash in front is the cascading root plus what follows the slash |
| `NamedKeys.SetNamespaced` | src/libs/elektra/keyname.c:513-577 | a namespace alone is its root; with a slash behind it, what follows is added to this root |
| `NamedKeys.NoNamespace` | src/libs/elektra/keyname.c:513-577 | exactly the names that are taken for none of these |
| `NamedKeys.SetNameDots` | src/libs/elektra/keyname.c:513-577 | "." levels in a name that is set change nothing, and ".." does not lead out of the namespace |
| `NamedKeys.NamedKey.AddBaseName` | src/libs/elektra/keyname.c:839-876 | one more part, whatever bytes the base name consists of |
| `NamedKeys.NamedKey.SetBaseName` | src/libs/elektra/keyname.c:1056-1108 | the last part is exchanged or, for a null pointer, taken away |
| `NamedKeys.NamedKey.BaseName` | src/libs/elektra/keyname.c:706-723 | the last part, unescaped |
| `NamedKeys.BaseNameRoundTrip` | src/libs/elektra/keyname.c:706-876 | keyBaseName returns what keyAddBaseName was given, and going up undoes it |
| `NamedKeys.ChildIsAdded` | src/libs/elektra/keyname.c:706-876 | adding a base name is adding its escaped form as a name; the base name is the last part unescaped, and empty at a root |
| `NamedKeys.SetCanonicalName` | src/libs/elektra/keyname.c:513-577 | setting a canonical name stores exactly that name |
| `PrefixMaps.LongestIsLongest` | src/libs/elektra/trie.c:243-272 | reference definition: the value of the longest key that is a prefix of the query |
| `Tries.StartsWith` | src/libs/elektra/trie.c:231-241 | the position of the first mismatch, or that there is none |
| `Tries.Trie.PrefixLookup` | src/libs/elektra/trie.c:243-272 | lookup in the heap trie returns the value of the longest inserted name that is a prefix of the query, or nothing |
| `Tries.Trie.Insert` | src/libs/elektra/trie.c:102-181 | insertion into any node changes the map at this one name and nowhere else, node splits included |
| `Tries.Trie.Split` | src/libs/elektra/trie.c:138-166 | cutting an edge in place keeps the answers for all strings |
| `Tries.SplitChild` | src/libs/elektra/trie.c:144-160 | the node that takes over the rest of a cut edge |
| `Tries.TrieInsert` | src/libs/elektra/trie.c:102-118 | the same for the empty trie, which is a null pointer |
| `Tries.InsertedIsLast` | src/libs/elektra/trie.c:102-181 | of several insertions under one name the last one counts |
| `Tries.InsertAndLookup` | src/libs/elektra/trie.c:102-181 | any sequence of insertions followed by any lookup: the value inserted last under the longest matching name |
| `Mounts.SlashedPrefix` | src/libs/elektra/trie.c:53-72 | string prefix of names with a slash appended is component prefix, escaped slashes included |
| `Mounts.LongestIsNearest` | src/libs/elektra/trie.c:53-72 | longest prefix by bytes finds the nearest enclosing mountpoint by components |
| `Mounts.MountAllIs` | src/libs/elektra/mount.c:441-553 | a backend is found under each name it is mounted at; of several under one name the last one wins |
| `Mounts.Kdb.MountBackend` | src/libs/elektra/mount.c:441-553 | the names a backend is mounted at, spelled out: the four roots for "/", dir, user and system for any other cascading mountpoint, system/elektra for the default one, else the mountpoint itself; every other entry stays, and the new parts follow |
| `Mounts.MountNamesAre` | src/libs/elektra/mount.c:441-553 | a name is one of these if and only if it is, by the mountpoint |
| `Mounts.Kdb.GetBackend` | src/libs/elektra/mount.c:613-620 | the backend of the nearest enclosing mountpoint, spelled out; the default one if no mountpoint encloses the key |
| `Mounts.ResponsibleMeans` | src/libs/elektra/mount.c:613-620 | who is responsible: the backend of that enclosing mountpoint which has the most parts |
| `Mounts.NothingBetween` | src/libs/elektra/mount.c:613-620 | everything below a name without a nearer mountpoint has the backend of this name |
| `KeyOrder.CompareByNameIsLexicographic` | src/libs/elektra/keyset.c:404-437 | the comparison with memcmp and lengths is the lexicographic order of the unescaped names |
| `Bytes.CompareMeans` | src/libs/elektra/keyset.c:404-437 | lexicographic, spelled out: a proper prefix, or the first byte that differs is smaller |
| `KeyOrder.UnescapedPrefix` | src/libs/elektra/keyset.c:404-437 | the unescaped name of one key begins that of another exactly when it is the same key or an ancestor |
| `KeyOrder.UnescapedInjective` | src/libs/elektra/keyset.c:404-437 | different names have different unescaped forms |
| `KeyOrder.CompareIdentsAntisymmetric` | src/libs/elektra/keyset.c:512-521 | name-then-owner comparison is antisymmetric and 0 only for equal identities |
| `KeyOrder.CompareIdentsTransitive` | src/libs/elektra/keyset.c:489-521 | and transitive: a total order |
| `KeyOrder.OwnersDecide` | src/libs/elektra/keyset.c:489-499 | with equal names a key without owner comes first, and owners compare as strings |
| `KeyOrder.NamesDecide` | src/libs/elektra/keyset.c:404-437 | with different names the first byte that differs in the unescaped names decides |
| `KeyOrder.ParentsFirst` | src/libs/elektra/keyset.c:404-437 | every parent precedes its descendants |
| `KeyOrder.SubtreeIsInterval` | src/libs/elektra/keyset.c:1074-1092 | whatever lies between two keys of a subtree belongs to the subtree |
| `KeyOrder.CascadingFirst` | src/libs/elektra/keyset.c:404-437 | cascading names come before all others |
| `Below.BelowIsProper` | src/libs/elektra/keytest.c:216-304 | keyIsBelow, computed from escaped and unescaped forms together, holds if and only if one part list is a proper prefix of the other; cascading names match any namespace |
| `Below.PartsBelowIsPrefix` | src/libs/elektra/keytest.c:299-302 | the two byte conditions together mean proper prefix of the part lists |
| `Below.BelowOrSameIs` | src/libs/elektra/keytest.c:313-325 | keyIsBelowOrSame is below or equal |
| `Below.BelowOrSameNamespaced` | src/libs/elektra/keytest.c:313-325 | for a key with a namespace: its subtree, and the cascading names with a longer path |
| `Below.DirectBelowIsOneLevel` | src/libs/elektra/keytest.c:354-386 | keyIsDirectBelow is below by exactly one part, and reads inside the name, unless the key has a namespace and the other is cascading |
| `Below.DirectBelowOfCascading` | src/libs/elektra/keytest.c:354-386 | then it reads behind the end if and only if what follows the parts of the key is not longer than the namespace, and otherwise answers whether the levels in between are not longer than the namespace |
| `Below.DirectBelowGoesWrong` | src/libs/elektra/keytest.c:354-386 | from user/a, the cascading name /a/bb/cc is taken to be directly below, and /a/b is read behind its end |
| `Below.KeyRelIs` | src/libs/elektra/keytest.c:515-529 | keyRel of two keys with a namespace is not negative exactly for the same key and what is below, and 1 exactly for one level |
| `KeySets.KeySet.SearchInternal` | src/libs/elektra/keyset.c:691-734 | binary search returns the position of the identity, or the place where it belongs and that it is absent |
| `KeySets.KeySet.Resize` | src/libs/elektra/keyset.c:2305-2343 | reallocation keeps the elements; the new size for the arguments that append, pop and ksAppend pass |
| `KeySets.KeySet.AppendKey` | src/libs/elektra/keyset.c:779-845 | the finite map is updated at one identity; sorted order, terminator, cursor and reference counters, exactly which keys are freed; keys without name are refused |
| `KeySets.KeySet.Append` | src/libs/elektra/keyset.c:867-887 | the map of the other keyset overrides this one; aliasing allowed; which keys are freed and where the cursor stands |
| `KeySets.KeySet.Dup` | src/libs/elektra/keyset.c:226-239 | a separate keyset with the same keys |
| `KeySets.KeySet.Pop` | src/libs/elektra/keyset.c:1173-1190 | the greatest key leaves, is not freed, and the map loses one entry |
| `KeySets.KeySet.PopAtCursor` | src/libs/elektra/proposal.c:110-146 | the key at a position leaves, the others keep their order, the cursor is rewound |
| `KeySets.KeySet.Next` | src/libs/elektra/keyset.c:1249-1261 | the cursor moves to the next position; behind the end it stays |
| `KeySets.KeySet.Prev` | src/libs/elektra/proposal.c:18-28 | the cursor moves back, or is rewound at the beginning |
| `KeySets.KeySet.Clear` | src/libs/elektra/keyset.c:376-391 | every key is released, those without other holder and only those are freed |
| `KeySets.KeySet.Del` | src/libs/elektra/keyset.c:350-360 | the same when the keyset itself goes away |
| `KeySets.KeySet.ReleaseAll` | src/libs/elektra/keyset.c:2397-2415 | the loop of ksClose releases every key exactly once |
| `KeySets.KeySet.CopyInternal` | src/libs/elektra/keyset.c:901-924 | the keys from a position on move down, the ones in between disappear |
| `KeySets.RunIsCutOut` | src/libs/elektra/keyset.c:1074-1092 | whatever is cut out matches the cutpoint |
| `KeySets.KeySet.Cut` | src/libs/elektra/keyset.c:1074-1131 | the first run of matching keys moves to a new keyset, both stay sorted maps, and where the cursor stands afterwards |
| `KeySets.RepresentationUnique` | src/libs/elektra/keyset.c:779-845 | the map determines the sorted array: there is one order only |
| `KeySets.MergeAll` | src/libs/elektra/keyset.c:867-887 | appending key by key is map union with override |
| `KeySets.DivideRun` | src/libs/elektra/keyset.c:1117-1127 | a run and its complement partition both the sequence and the map |
| `Cuts.Interval` | src/libs/elektra/keyset.c:1074-1092 | matching keys of the same kind, namespaced or cascading, have no gaps |
| `Cuts.CutsAllExactlyIf` | src/libs/elektra/keyset.c:1074-1092 | ksCut is a filter if and only if no foreign key sits between a cascading and a namespaced match |
| `Cuts.CutsSubtree` | src/libs/elektra/keyset.c:1074-1131 | without cascading keys it is a filter for the subtree of the cutpoint |
| `Cuts.CutFiltersTheMap` | src/libs/elektra/keyset.c:1074-1131 | then the map of the result has exactly the matching entries |
| `Cuts.CutCanStopEarly` | src/libs/elektra/keyset.c:1074-1092 | the concrete keyset in which even the cutpoint itself stays behind |
| `Cuts.CutAtCursor` | src/libs/elektra/keyset.c:1094-1129 | cutting at the current key makes ksNext go on with the first key behind the subtree |
| `Cuts.PastTheEnd` | src/libs/elektra/keyset.c:1094-1190 | iterating to the end and popping leaves the cursor behind the end, the state that Cut excludes unless the run is the end of the keyset |
| `KeySets.Key.KeyIncRef` | src/libs/elektra/key.c:545-553 | one more reference |
| `KeySets.Key.KeyDecRef` | src/libs/elektra/key.c:579-587 | one reference less, never below zero |
| `KeySets.Key.KeyDel` | src/libs/elektra/key.c:452-467 | the key is freed exactly if its counter is zero |
| `References.AppendKeyTo` | src/libs/elektra/keyset.c:797-822 | appending and replacing keep every counter equal to the number of holders plus outside references |
| `References.CutBalances` | src/libs/elektra/keyset.c:1122-1127 | moving keys between keysets changes no number of holders |
| `References.Delete` | src/libs/elektra/key.c:452-467 | keyDel frees a key if and only if no keyset and nobody outside holds it |
| `References.HeldNotFreed` | src/libs/elektra/key.c:452-467 | a key that sits in any keyset was not freed |
| `References.NobodyHolds` | src/libs/elektra/key.c:545-587 | the number of holders is zero exactly if no keyset has the key |
| `Runs.Perform` | src/libs/elektra/keyset.c:779-1190 | every one of eleven operations keeps all keysets valid and separate and all counters right, and has the outcome that Does gives: sequences of keys, maps, references from outside, freed keys |
| `Runs.OneOutcome` | src/libs/elektra/keyset.c:779-1190 | for every situation and every permitted operation this outcome is the only one |
| `Runs.Run` | src/libs/elektra/keyset.c:779-1190 | every sequence of operations on any number of keysets that share keys: what is permitted happens, what is not changes nothing, and all invariants hold at the end |
| `Runs.OneHistory` | src/libs/elektra/keyset.c:779-1190 | a sequence of operations has exactly one history from a given start |
| `Postprocessing.DropCurrentKey` | src/libs/elektra/split.c:503-506 | popping the current key while iterating: the next call of ksNext returns the key that moved up |
| `Postprocessing.Postprocess` | src/libs/elektra/split.c:521-575 | every key is examined exactly once, the loop terminates, and the keys that stay are given by a filter |
| `Postprocessing.KeptAre` | src/libs/elektra/split.c:521-575 | the filter keeps exactly the keys of this backend and this namespace |
| `Splits.Layout.SearchIsFirstFit` | src/libs/elektra/split.c:187-227 | the search returns the first part that fits; only names outside the stored namespaces can miss one |
| `Splits.Layout.SearchFindsTheFit` | src/libs/elektra/split.c:187-227 | if no two parts compete, it finds the only one that fits |
| `Splits.MountKeepsProper` | src/libs/elektra/mount.c:441-553 | the parts that mountBackend records do not compete |
| `Splits.MountKeepsStraight` | src/libs/elektra/mount.c:441-553 | and a part that takes all keys of its backend is reached only from its own namespace |
| `Splits.CascadingPartKeeps` | src/libs/elektra/mount.c:110-242 | so it stays with a further cascading part in another namespace |
| `Splits.AppointedBelongs` | src/libs/elektra/split.c:521-575 | for such parts: a key that is appointed to a part passes the filter of this part if and only if its namespace can be stored |
| `Splits.Split.SearchBackend` | src/libs/elektra/split.c:187-227 | the loop computes the search |
| `Splits.Split.Append` | src/libs/elektra/split.c:151-172 | a new part at the end with an empty keyset; the capacity doubles exactly when it is used up |
| `Splits.Split.Remove` | src/libs/elektra/split.c:104-117 | the shifting loop takes one part out, the parts behind move down in all four arrays |
| `Splits.Split.Divide` | src/libs/elektra/split.c:374-401 | each part gets exactly its share of the keys and is flagged exactly if one of them needs sync; the return value |
| `Splits.ShareAll` | src/libs/elektra/split.c:374-401 | a share is exactly the entries whose part it is |
| `Splits.Split.Appoint` | src/libs/elektra/split.c:438-464 | as above with a default part for the rest, and nothing for parts that will be reloaded |
| `Splits.Split.Merge` | src/libs/elektra/split.c:671-679 | all parts are appended one after the other |
| `Splits.MergeIsUnion` | src/libs/elektra/split.c:671-679 | if no two parts share an identity the merge has each part unchanged |
| `KdbGets.FilteredIsKept` | src/libs/elektra/split.c:521-575 | filtering the map of a keyset is what dropping its keys one by one does |
| `KdbGets.ReloadAndMerge` | src/libs/elektra/split.c:438-679 | appoint, reload, filter, merge: a key that has a part comes from where the part was filled, exactly if it can be stored, and all others stay; nothing lost, nothing twice |
| `KdbGets.CheckUpdateNeeded` | src/libs/elektra/kdb.c:451-493 | flags exactly the parts whose resolver saw a change, sets the remembered sizes to 0, fails exactly if a resolver is missing or fails |
| `KdbGets.DoUpdate` | src/libs/elektra/kdb.c:502-534 | exactly the flagged parts are read; fails exactly if one of them cannot be |
| `KdbGets.SplitGet` | src/libs/elektra/split.c:598-625 | every part but the default one is filtered, whether it was read or not; sizes are remembered and sync flags cleared |
| `KdbGets.KdbGet` | src/libs/elektra/kdb.c:738-893 | return value and resulting keys for all answers of the plugins; the remembered sizes are the numbers of keys of each part, or 0 if nothing was read |
| `KdbGets.SetAfterGet` | src/libs/elektra/kdb.c:1178-1208 | kdbSet with what kdbGet has just returned does nothing |
| `KdbGets.SetAfterIdleGet` | src/libs/elektra/kdb.c:451-493 | after a kdbGet that returned 0, kdbSet returns 0 if and only if no key has a part; otherwise exactly the parts with keys take part |
| `Openings.MountOpen` | src/libs/elektra/mount.c:51-96 | after mounting all backends the parts do not compete, are reached straight, and every mountpoint has one; mounts and parts are those of the backends and nothing else |
| `Openings.AllMountedIs` | src/libs/elektra/mount.c:51-96 | a name is mounted if and only if some backend is mounted at it, and the last such backend has it |
| `Openings.MountDefault` | src/libs/elektra/mount.c:110-242 | without fallback the init backend is mounted at system/elektra and nothing else changes; in the fallback the default backend serves it, mounted there only if another one did |
| `Openings.ElektraIsMounted` | src/libs/elektra/mount.c:196-199 | system/elektra and everything below it without a nearer mountpoint belongs to the init backend, in the fallback to the default backend |
| `Openings.DefaultsAre` | src/libs/elektra/mount.c:110-242 | which parts the two backends have: the init backend that at system/elektra, the default backend the roots that are its own |
| `Openings.DefaultsServeAll` | src/libs/elektra/mount.c:110-242 | afterwards the parts are still orderly and every namespace that is stored is served |
| `Openings.PartForName` | src/libs/elektra/split.c:187-227 | so every name that can be stored has exactly one part, that of its backend in its namespace |
| `Openings.Open` | src/libs/elektra/kdb.c:332-342 | mounting as kdbOpen does it establishes all this, for any backends: the init backend at system/elektra, all other mounts and parts as configured |
| `Buildups.SplitBuildup` | src/libs/elektra/split.c:287-351 | the parts selected for a parent key, in order and as new parts without keys; BuiltUpExactly says which these are |
| `Buildups.TakesExactly` | src/libs/elektra/split.c:330-336 | a parent takes the parts below it and the one part it belongs to itself, and no other one |
| `Buildups.BuiltUpExactly` | src/libs/elektra/split.c:287-351 | the same for cascading parents, for each namespace, and for no parent: which recorded parts are selected |
| `Buildups.ChosenAt` | src/libs/elektra/split.c:322-345 | each part once, in the order in which they were recorded |
| `Buildups.BuiltUpKeeps` | src/libs/elektra/split.c:287-351 | no part is selected twice, so the selection is as proper and straight as all parts |
| `Buildups.BuiltUpCovers` | src/libs/elektra/split.c:287-351 | every key below the parent has its part among the selected ones |
| `Buildups.CoversExactlyIf` | src/libs/elektra/split.c:287-351 | in general: a name has its part among the selected ones if and only if the parent takes this part |
| `Buildups.FallbackMisses` | src/libs/elektra/mount.c:163-188 | in the fallback with a mounted system/elektra a key system/x of the default backend is missed by its own name |
| `Buildups.GetBelow` | src/libs/elektra/kdb.c:738-893 | kdbGet with a parent key on an opened database: only the concerned parts are asked, an error or 0 exactly by their answers, and every storable key is what its backend read if that is concerned and has news, or what was there |
| `Buildups.GetSelected` | src/libs/elektra/kdb.c:738-893 | the same by the selected parts: the return value for every answer |
| `Splits.FilterKeepsNamespace` | src/libs/elektra/split.c:598-625 | for any layout: of the keys appointed to a part the filter keeps exactly those of its namespace, all of them if the part is cascading |
| `Splits.Split.Sync` | src/libs/elektra/split.c:703-775 | flags the parts with another number of keys than remembered; 0 or 1, or which part is unready |
| `Splits.BackendUpdateSize` | src/libs/elektra/backend.c:404-435 | one size for each namespace; the others stay |
| `Splits.Split.UpdateSize` | src/libs/elektra/split.c:633-661 | afterwards the backends remember the number of keys of each part up to the first that cannot be stored, for which -1 is returned; also if parts share a backend |
| `Splits.Split.Prepare` | src/libs/elektra/split.c:785-804 | removing while iterating leaves exactly the flagged parts, in order, in all four arrays |
| `Splits.SelectedAre` | src/libs/elektra/split.c:785-804 | a part is left if and only if it is flagged |
| `KdbSets.Env.FailureIs` | src/libs/elektra/kdb.c:906-984 | a failure is a filled slot before the commit, in any part, whose plugin returns -1; behind a resolver that returns 0 the other slots are not called |
| `KdbSets.Env.TraceHas` | src/libs/elektra/kdb.c:906-1059 | exactly which steps a run consists of, hooks included: all prepare steps of all parts even after a failure; then commit or rollback, never both |
| `KdbSets.Env.TraceInOrder` | src/libs/elektra/kdb.c:906-1059 | the order: prepare part by part and slot by slot with each hook behind its slot, then the hook, commit or rollback slot by slot through all parts, the other hook |
| `KdbSets.Env.TraceIsTheOnly` | src/libs/elektra/kdb.c:906-1059 | order and membership determine the trace: no other sequence of steps has both |
| `KdbSets.Env.RunGoesOn` | src/libs/elektra/kdb.c:1214-1261 | by positions: every prepare step comes before every commit call, rollback call and their hooks; the pre hooks before these calls, the post hooks behind |
| `KdbSets.Env.CallsGoOn` | src/libs/elektra/kdb.c:906-1059 | by positions: prepare calls by part and then slot, commit and rollback calls by slot and then part, the hooks of a part behind its slots |
| `KdbSets.Env.CommitIsSafe` | src/libs/elektra/kdb.c:1178-1261 | a call at or behind the commit slot comes after all prepare calls of all parts, and none of these failed |
| `KdbSets.Env.CommitBySlots` | src/libs/elektra/kdb.c:993-1028 | commit goes slot by slot through all parts |
| `KdbSets.Env.TraceOnce` | src/libs/elektra/kdb.c:906-1059 | no call happens twice, so one answer per call covers all behaviours of plugins |
| `KdbSets.SetPrepare` | src/libs/elektra/kdb.c:906-984 | the nested loops perform the prepare steps and remember any failure |
| `KdbSets.SetCommit` | src/libs/elektra/kdb.c:993-1028 | the commit loops; failures have no effect on them |
| `KdbSets.SetRollback` | src/libs/elektra/kdb.c:1037-1059 | the rollback loops |
| `KdbSets.ReportedPart` | src/libs/elektra/kdb.c:1190-1205 | or-ing the two states reports the right part if and only if no key needed sync or its position is odd |
| `KdbSets.Decide` | src/libs/elektra/kdb.c:1178-1190 | the decision: all parts ready, and the flags are exactly those of the parts that take part |
| `KdbSets.TakesPartIf` | src/libs/elektra/kdb.c:1178-1190 | a part takes part exactly if its number of keys changed or a flagged key belongs to it; all are ready exactly if each has a stored namespace and a remembered size |
| `KdbSets.OrSetsLowestBit` | src/libs/elektra/kdb.c:1190-1190 | what the bitwise or of a state and a position is |
| `KdbSets.Store` | src/libs/elektra/kdb.c:1214-1261 | prepare, then rollback or commit; after success no part counts as changed |
| `KdbSets.KdbSet` | src/libs/elektra/kdb.c:1132-1284 | return value and trace for every situation: only parts with a flagged key or a changed size take part; success clears the sync flags of all keys, stored or not |
| `Growth.GrowKeeps` | src/libs/elektra/opmphm_vheap.c:75-85 | capacity rule and amortised budget survive an insertion |
| `Growth.ShrinkKeeps` | src/libs/elektra/opmphm_vheap.c:112-126 | and a removal; after a shrink the removed element is still inside the array |
| `Growth.DoubledIsPower` | src/libs/elektra/opmphm_vheap.c:75-126 | the capacity is the minimal size times a power of two |
| `Growth.MovedIsLinear` | src/libs/elektra/opmphm_vheap.c:75-126 | elements moved by reallocation: at most three for each operation and half the minimal size |
| `Vstacks.Vstack.Push` | src/libs/elektra/opmphm_vstack.c:39-60 | pushes; the array doubles exactly when it is full, and then the elements moved are counted |
| `Vstacks.Vstack.Pop` | src/libs/elektra/opmphm_vstack.c:69-89 | returns the last pushed element; the array halves exactly when at most a quarter is used, and then moved elements are counted |
| `Vstacks.Vstack.Amortised` | src/libs/elektra/opmphm_vstack.c:39-89 | the bound on moved elements over any run |
| `Vheaps.FirstOfHeap` | src/libs/elektra/opmphm_vheap.c:107-148 | nothing comes before the first element of a heap |
| `Vheaps.StepUp` | src/libs/elektra/opmphm_vheap.c:87-94 | one step of the sift up keeps the heap around the hole |
| `Vheaps.StepDown` | src/libs/elektra/opmphm_vheap.c:131-146 | one step of the sift down, to the child that comes first |
| `Vheaps.Vheap.Insert` | src/libs/elektra/opmphm_vheap.c:71-96 | heap property, and the element is added to the multiset, for every strict weak order; the array doubles exactly when it is full |
| `Vheaps.Vheap.Remove` | src/libs/elektra/opmphm_vheap.c:107-148 | a first element leaves the multiset, the heap property stays; an empty heap gives nothing; the array halves exactly when at most a quarter is used |
| `Vheaps.Vheap.Amortised` | src/libs/elektra/opmphm_vheap.c:71-148 | the bound on moved elements over any run |
| `Vheaps.Drain` | src/libs/elektra/opmphm_vheap.c:107-148 | removing everything gives a sorted permutation of what was inside |
| `Opmphms.ChainIsIncident` | src/libs/elektra/opmphm.c:66-72 | following the links gives exactly the edges of the vertex, the latest first, each once |
| `Opmphms.BuiltMeans` | src/libs/elektra/opmphm.c:54-73 | every list is as long as the degree says, and the degrees of each side sum up to the number of edges |
| `Opmphms.DegreesSum` | src/libs/elektra/opmphm.c:66-72 | each edge has one end on each side |
| `Opmphms.Mapping` | src/libs/elektra/opmphm.c:36-86 | the graph is built, and 1 is returned if and only if two keys share all three hash values |
| `Opmphms.VerifyVertex` | src/libs/elektra/opmphm.c:77-84 | the nested list walks terminate and compare every pair of the list |
| `ArrayNames.FitsExactlyIf` | src/libs/elektra/keyset.c:1519-1537 | name and terminator fit into 21 bytes if and only if the index is below 10^10 |
| `ArrayNames.WriteArrayNumber` | src/libs/elektra/keyset.c:1519-1537 | the buffer holds the name of the index |
| `ArrayNames.ValidateName` | src/libs/ease/array.c:33-80 | what the validation accepts: whatever follows the digits is not looked at |
| `ArrayNames.ReadWritten` | src/libs/ease/array.c:33-111 | a written name is accepted and read back to the same number |
| `ArrayNames.WrittenExactlyIf` | src/libs/ease/array.c:33-80 | an accepted name is a written one if and only if nothing follows the digits and there is no leading zero |
| `ArrayNames.AcceptedButNotWritten` | src/libs/ease/array.c:33-80 | two concrete names that are accepted although no index is written like that |
| `ArrayNames.ReadArrayNumber` | src/libs/ease/array.c:82-112 | the number the digits stand for |
| `ArrayNames.OrderIsNumeric` | src/libs/elektra/keyset.c:1519-1537 | bytes order array names as the numbers are ordered, for all numbers |
| `ArrayNames.OrderExactly` | src/libs/elektra/keyset.c:1519-1537 | and only so: the names compare as the numbers do, in both directions |
| `ArrayNames.ElementsInOrder` | src/libs/ease/array.c:113-121 | below one parent the key order is the order of the indices |
| `ArrayNames.IncName` | src/libs/ease/array.c:133-171 | the base name of a key becomes that of the next index; names that are not accepted are refused |
| `ArrayNames.NextOfWritten` | src/libs/ease/array.c:133-171 | the index behind n is n + 1, and 0 behind the start of an array |
| `ArrayNames.SomeNames` | src/libs/elektra/keyset.c:1519-1537 | #0, #9 and #_10 |
| `ArrayNames.GetNextKey` | src/libs/ease/array.c:244-263 | the new key comes after all keys of the array and is absent from it; the keyset is as before |
| `Base64.SameBits` | src/plugins/base64/base64_functions.c:37-68 | the 24 bits of a group are the same read as three bytes or as four six-bit numbers |
| `Base64.RoundTrip` | src/plugins/base64/base64_functions.c:21-155 | decoding inverts encoding for every value, with the exact length |
| `Base64.EncodeInjective` | src/plugins/base64/base64_functions.c:21-73 | different values have different encodings |
| `Base64.WrittenFits` | src/plugins/base64/base64_functions.c:118-152 | never more is written than was computed, for every accepted input; exactly as much if and only if padding stands at the end only |
| `Base64.BufferNotFilled` | src/plugins/base64/base64_functions.c:118-152 | AA==AAAA is accepted, 4 bytes are written, and the length is 6 |
| `Base64.CanonicalExactly` | src/plugins/base64/base64_functions.c:102-155 | encoding gives back an accepted string if and only if it is canonical |
| `Base64.GetBase64Index` | src/plugins/base64/base64_functions.c:81-91 | the inverse of the alphabet, padding counted as 0, anything else an error |
| `Base64.LetterIs` | src/plugins/base64/base64_functions.c:11-11 | the alphabet is that of section 4 of RFC 4648 |
| `Base64.TestVectors` | src/plugins/base64/base64_functions.c:21-73 | values from section 10 of RFC 4648 |
| `Base64.Base64Encode` | src/plugins/base64/base64_functions.c:21-73 | the loop fills a buffer of the computed length exactly |
| `Base64.Base64Decode` | src/plugins/base64/base64_functions.c:102-155 | which strings are accepted, the length of the buffer and the bytes written to it |
| `Base64.DecodableMeans` | src/plugins/base64/base64_functions.c:81-91 | accepted are whole groups of letters of the alphabet and padding at any place |
| `Base64.GroupMeans` | src/plugins/base64/base64_functions.c:144-152 | the bytes of one group by the positions of its letters, fewer for padding in its second half |
| `Base64.WrittenConcat` | src/plugins/base64/base64_functions.c:125-155 | groups are decoded one by one |
| `Base64Plugin.Set` | src/plugins/base64/base64.c:109-162 | every binary value becomes a tagged string, every string with a leading escape gets another one, any other stays |
| `Base64Plugin.Get` | src/plugins/base64/base64.c:25-95 | tagged strings that can be decoded become binary, of two leading escapes one is taken away, anything else stays |
| `Base64Plugin.SetThenGet` | src/plugins/base64/base64.c:45-162 | storing and loading restores every string and every binary value |
| `Base64Plugin.StoreAndLoad` | src/plugins/base64/base64.c:45-162 | the same for the values of a whole keyset |
| `Base64Plugin.StoredInjective` | src/plugins/base64/base64.c:109-162 | different values are stored differently |

## Left out

- Loading of plugins, files, cryptography, bindings, logging and the texts of errors and warnings.
- Failing allocation, null pointers as arguments where the code only returns an error for them, and counters at
  `SSIZE_MAX`.
- NamedKeys.NamedKey.SetName: owners written into the name, `user:name`, because owners are a field of their own here; tails
  that are an odd run of backslashes, for which `keyAddName` fails an assertion.
- NamedKeys.NamedKey.AddName: names that are an odd run of backslashes, which pass the validation but fail the assertion on
  the number of backslashes when the sum is unescaped (`StrayIsLastLevel`).
- KeySets.KeySet.Cut: cascading cutpoints, which the code handles by rewriting the name of the cutpoint and calling itself. A
  cursor behind the end of the keyset is allowed only if the run is the end or empty: otherwise the code reads behind the keys
  that are left. `PastTheEnd` reaches this state.
- KeySets.KeySet.Resize: a size equal to the number of keys, which the code accepts although the terminator no longer fits.
- Splits.Split.Divide: the error for a key without any backend, because a default backend is always present here; the same holds
  for `Appoint` and `Postprocess`.
- Splits.Split.Prepare: the deep copy of the keysets that stay, which are values here.
- The keysets of a split are given by their maps; that appending to a keyset is updating its map is proved in `KeySets`.
- KdbSets.KdbSet: the parent key that is passed to plugins, file names and the key that caused an error.
- KdbGets.KdbGet: global plugins and the texts of warnings. What the storage plugins of a part do to its keyset is one answer,
  the keys they leave or a failure; reading a key the code asserts not to exist, in the namespace `none`, is not modelled.
- Openings.Open: the configuration that the backends are read from; `AtRoot` is not promised for `system` in the fallback.
- Buildups.SplitBuildup: the meta data of the parents that are copied.
- Buildups.GetBelow: in the fallback with another backend mounted at system/elektra, what happens to names in `system`;
  `FallbackMisses` has such a case.
- Opmphms.Mapping: a single key, for which the number of vertices is 0 and the remainder is not defined; the hash functions
  themselves, whose values are inputs.
- Vheaps.Vheap.Amortised: `elektraVheapClear`, after which more than a quarter need not be used; the same for the stack.
- ArrayNames.IncName: the step from index 9999999999, whose name does not fit into the buffer.
- ArrayNames.GetNextKey: the metadata that `keyDup` copies; only keysets that hold nothing but elements of one array.
- `elektraArrayGet`, whose filter takes the error value of the validation for true.
- Lookup by specification, with links and callbacks; cascading lookup.
- `elektraSortTopology`, and the assignment and ordering phases of the hash map.
- The tables of a trie node are sequences of 256 entries, `textlen` is the length of the text, and `trieClose` is not part of
  this model.
