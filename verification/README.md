# Verified models of NSD's core

NSD is an authoritative DNS server. This project models the data structures and the streaming code at its
core in Dafny and proves what they promise. Nothing here runs the original program; `dafny verify dfyconfig.toml`
checks every statement below.

| file | part of NSD |
|---|---|
| `Bytes.dfy`, `RadShape.dfy`, `RadTree.dfy`, `RadOrder.dfy` | the radix tree: byte order, shape of the store, insertion and deletion, ordered search |
| `Dname.dfy`, `Radname.dfy` | domain names, their canonical order (section 6.1 of RFC 4034), and names as radix tree keys |
| `RbKeys.dfy`, `RbShape.dfy`, `RbEdit.dfy`, `RbTree.dfy`, `RbSearch.dfy`, `RbDelete.dfy`, `RbMap.dfy` | the red-black tree: keys under a comparison function, shape and colours, edits, insertion, ordered search, deletion, and the operations by key |
| `NumList.dfy`, `DomainTable.dfy`, `NameTree.dfy` | the domain table: numbering, closest encloser, reference counts, existence, removal, and its search on the radix tree |
| `Nsec3.dfy` | the NSEC3 cover cache with its lazy repair ("cover" as in section 1.3 of RFC 5155) |
| `HashedNames.dfy`, `HashTrees.dfy` | which names of a zone are hashed, and how the triggers of additions and deletions keep the hash trees in step with the records |
| `ZoneData.dfy`, `Ixfr.dfy`, `Axfr.dfy` | zone contents, applying transfers (RFC 1995, RFC 5936), producing full transfers |
| `Wire.dfy`, `Packet.dfy`, `Answer.dfy`, `Chase.dfy` | compressed names (section 4.1.4 of RFC 1035), records with rollback, answers with truncation, following aliases |
| `Region.dfy`, `Rrl.dfy` | the region allocator with recycle bins, and response rate limiting |

How it is built. Structures that C keeps as linked nodes are explicit stores (a map from addresses to node fields)
held in the fields of a class; all conditions on a store are local to a node and its neighbours, and each step of
the code is described by a relation between two stores. Methods follow the code branch by branch and are tied to
that relation or to a specification function; lemmas then say what the relation or function means.

## Model

| member | source | states |
|---|---|---|
| `RadTree.RadTree.FindPrefixNode` | radtree.c:139-180 | finds the deepest node whose key is a prefix of the searched key |
| `RadTree.RadTree.Search` | radtree.c:819-848 | a node is found exactly for the keys of the denoted map, and it is the node with that key and its element |
| `RadTree.RadTree.ArraySpace` | radtree.c:204-258 | makes the entry for a byte available; offset, entries and the index back links of all children move together |
| `RadTree.RadTree.AddLeaf` | radtree.c:540-588 | a new leaf below a node keeps the shape: back links agree with the arrays, edges spell the keys |
| `RadTree.RadTree.SplitEdge` | radtree.c:338-470 | an edge is split by a node in the middle; both halves spell the old edge |
| `RadTree.RadTree.SelSplit` | radtree.c:338-470 | an edge that the new key leaves half way: the map gains exactly the key, no node loses its identity; the case of an edge that is a prefix of the key cannot occur |
| `RadTree.RadTree.Insert` | radtree.c:492-605 | NULL and no change for a key that is there; otherwise exactly that key is added, the returned node has it, count is the size of the map, all invariants hold, all nodes keep key and address |
| `RadTree.TrimBounds` | radtree.c:690-740 | after trimming, the first and last entries of an array are not empty |
| `RadTree.RadTree.CleanupLeaf` | radtree.c:742-777 | a leaf without element goes, arrays are trimmed, back links stay right, the map does not change |
| `RadTree.RadTree.CleanupOneChild` | radtree.c:622-661 | a node without element and with one child is merged into the edge, the map does not change |
| `RadTree.RadTree.Cleanup` | radtree.c:779-806 | afterwards every node except the root has an element or at least two children |
| `RadTree.RadTree.Delete` | radtree.c:808-817 | the map loses exactly the key of the node, count follows, all invariants hold, other nodes with elements keep their identity |
| `RadTree.Run` | radtree.c:492-817 | after any run of insertions and deletions the tree denotes the keys inserted and not deleted, and count is their number |
| `RadOrder.LastInSubtree` | radtree.c:61-81 | the greatest key strictly below a node |
| `RadOrder.FirstInSubtree` | radtree.c:94-112 | the least key strictly below a node |
| `RadOrder.FindPrevFromIdx` | radtree.c:114-127 | the greatest key below the entries before an index |
| `RadOrder.Prev` | radtree.c:990-1007 | the predecessor in byte-lexicographic order of the key set, or NULL exactly when there is none |
| `RadOrder.Next` | radtree.c:960-988 | the successor, or NULL exactly when there is none |
| `RadOrder.FindLessEqual` | radtree.c:858-943 | exact exactly when the key is there; otherwise the greatest smaller key, or NULL exactly when there is none |
| `RadOrder.First` | radtree.c:945-952 | the least key |
| `RadOrder.Last` | radtree.c:954-958 | the greatest key |
| `RadOrder.LeavesInEdge` | radtree.c:893-930 | how a key that leaves an edge half way compares with everything behind the edge |
| `Dname.LabelMatchCount` | dname.c:369-386 | the length of the longest common ancestor |
| `Dname.CompareNames` | dname.c:306-366 | the sign is the canonical order of names |
| `Dname.IsSubdomain` | dname.c:288-303 | true exactly for a name in the subtree |
| `Dname.SubtreeContiguous` | dname.c:306-366 | what lies between two names of a subtree in canonical order is in the subtree |
| `Radname.NameToKey` | radtree.c:1042-1111 | the key of a name, its labels from the most significant one on, separated by 0 |
| `Radname.KeyToName` | radtree.c:1114-1163 | the wire format of the name that a key stands for |
| `Radname.RoundTrip` | radtree.c:1042-1163 | converting to a key and back gives the name in lower case |
| `Radname.KeyIgnoresCase` | radtree.c:1010-1024 | names that differ in case only have the same key |
| `Radname.KeyOrder` | radtree.c:1010-1111 | the conversion is a strict order isomorphism from canonical order on lower-case names to byte-lexicographic order |
| `Radname.ParseWire` | radtree.c:1042-1090 | the label stack of a wire-format name holds exactly its labels |
| `Radname.WireOfIsWireBytes` | radtree.c:1042-1090 | the wire format that is parsed is that of a name without compression in a message |
| `Radname.FindNameLessEqual` | radtree.c:1273-1418 | the streaming search gives the answer of the search for the converted key, with the same handling of malformed names |
| `RbShape.TurnedLeftShape` | rbtree.c:63-85 | a rotation keeps search order and parent links |
| `RbTree.RbTree.RotateLeft` | rbtree.c:63-85 | the store after the pointer updates is the rotated tree |
| `RbTree.RbTree.RotateRight` | rbtree.c:90-111 | the same to the other side |
| `RbShape.Recolor` | rbtree.c:124-134 | red parent and uncle: recolouring keeps black heights and moves the only possible red-red pair up |
| `RbShape.TurnInner` | rbtree.c:136-140 | an inner grandchild is turned outwards |
| `RbShape.TurnOuter` | rbtree.c:141-146 | repainting and turning the grandparent ends the repair |
| `RbTree.RbTree.InsertFixup` | rbtree.c:113-173 | from one possible red-red pair to a valid red-black tree; the loop ends |
| `RbTree.RbTree.AddNode` | rbtree.c:208-226 | a node linked at the free place of its key, and the repair: exactly that node and key are added and order, links, black heights, colours and the sentinel are valid |
| `RbMap.RbMap.Insert` | rbtree.c:183-229 | for keys of any type under any comparison function: refused exactly for a key that compares equal to one of the tree, with no change; otherwise exactly that node and key are added and the tree is valid |
| `RbShape.RedSibling` | rbtree.c:373-384 | a red sibling is turned up, the deficit stays in place |
| `RbShape.DeficitUp` | rbtree.c:385-400 | the deficit moves to the parent, or is gone at the root |
| `RbShape.RedParent` | rbtree.c:402-412 | exchanging colours of parent and sibling removes the deficit |
| `RbShape.RedInner` | rbtree.c:415-440 | a red inner nephew is turned outwards |
| `RbShape.RedOuter` | rbtree.c:442-457 | the last rotation removes the deficit |
| `RbDelete.DeleteFixup` | rbtree.c:356-457 | from a deficit of one black node below one parent to a valid red-black tree; the loop ends |
| `RbDelete.SwapPlaces` | rbtree.c:284-330 | the pointer updates that exchange a node with its successor, child or not |
| `RbDelete.PlacesExchanged` | rbtree.c:284-330 | the result is the tree with the two places exchanged, also when the successor is the right child |
| `RbDelete.RemoveNode` | rbtree.c:282-354 | exactly the node goes, and all invariants hold, the sentinel included |
| `RbMap.RbMap.Delete` | rbtree.c:278-354 | NULL exactly when no key compares equal, with no change; otherwise exactly the node whose key does goes, and the tree is valid |
| `RbShape.Located` | rbtree.c:459-489 | a key in the interval of a node is found at or below it and nowhere else |
| `RbMap.RbMap.FindLessEqual` | rbtree.c:459-489 | exact exactly when a key compares equal; otherwise the greatest smaller key, or NULL exactly when there is none |
| `RbMap.NodesCompared` | rbtree.c:495-553 | the places of two nodes, in which the results on first, last, next and previous are stated, are ordered as the comparison function orders their keys |
| `RbSearch.First` | rbtree.c:495-502 | the least key, the sentinel exactly for the empty tree |
| `RbSearch.Last` | rbtree.c:504-511 | the greatest key |
| `RbSearch.Next` | rbtree.c:517-534 | the successor, or the sentinel exactly when there is none |
| `RbSearch.Previous` | rbtree.c:536-553 | the predecessor, or the sentinel exactly when there is none |
| `RbKeys.Ranked` | rbtree.c:39-61 | keys under any comparison function that is transitive and turns its sign with its arguments compare as their ranks do |
| `RbKeys.NamesCompare` | dname.c:306-366 | the canonical order of names is such a comparison function |
| `NumList.NumList.Push` | namedb.c:50-57 | the new domain gets the next number |
| `NumList.NumList.MakeLast` | namedb.c:88-127 | domain and last element exchange places and numbers, next to each other or not; links both ways and numbers 1..count stay right |
| `NumList.NumList.PopLast` | namedb.c:129-138 | the last one goes, the rest keeps numbers 1..count |
| `DomainTable.Search` | namedb.c:366-403 | the closest match, and as closest encloser the longest ancestor-or-self of the name that is in the table |
| `NameTree.SearchesAgree` | namedb.c:366-403 | the answer of the radix tree search for the key of a name is the last name of the table not after it, so searching the tree is searching the ordered names |
| `NameTree.FindMatch` | namedb.c:381-384 | the search with the wire format finds the node of the closest match, exact exactly when the name is in the table |
| `DomainTable.Table.constructor` | namedb.c:313-364 | only the root, as number 1, in use |
| `DomainTable.Table.Insert` | namedb.c:419-471 | the name and its missing ancestors are added, nothing else changes; the table stays parent-closed and numbered 1..count with the root first |
| `DomainTable.Table.CanBeDeleted` | namedb.c:140-153 | exactly for a domain without data, use and domains below it |
| `DomainTable.Table.DelDomain` | namedb.c:219-279 | the walk stops at the first ancestor-or-self that has data, use, or a domain below it that is not on the way; exactly the domains on the way up to there go, and nothing else changes; the table stays parent-closed and numbered |
| `DomainTable.Table.MarkExisting` | namedb.c:486-514 | the domain and all above it exist |
| `DomainTable.Table.HasDataBelow` | difffile.c:223-236 | the scan forward is exact: true exactly when an existing domain lies below |
| `DomainTable.Table.ZeroNonexistCheck` | difffile.c:239-263 | afterwards every domain exists exactly when it or a domain below it holds an RRset |
| `DomainTable.Table.AddRR` | difffile.c:743-861 | the record joins unless its RRset has one that says the same or is full, and then the records stay; in all cases the invariants of the table hold: parent-closed, numbered, existence exact, usage at least the references held |
| `DomainTable.Table.UnreferAll` | difffile.c:603-616 | lowering the usage of rdata names, with the deletions it causes: usage goes down by the number of references, and exactly the domains go that only these references needed, all domains below included; the invariants hold |
| `DomainTable.GivenUpStep` | difffile.c:603-616 | the same for one reference more, whatever the order of the references |
| `DomainTable.Table.DeleteRR` | difffile.c:626-741 | nothing changes when neither the record nor, for the SOA of the apex, its RRset is there; otherwise exactly that record goes, the last one of its RRset takes its place, and all invariants of the table hold |
| `DomainTable.Table.AddApex` | dbaccess.c:248-281 | the domain of a new zone is in the table and in use |
| `DomainTable.NothingDangles` | difffile.c:603-616 | owners and rdata names of all records are in the table, referenced ones with usage above 0 |
| `Nsec3.FindCover` | nsec3.c:463-496 | the NSEC3 that matches the hash, or the last one before it, or the last one of the chain |
| `Nsec3.CoverUnique` | nsec3.c:463-496 | only one NSEC3 of a chain covers or matches a hash |
| `Nsec3.CoverAfterInsert` | nsec3.c:567-579 | a new NSEC3 changes exactly the covers in the interval it takes over |
| `Nsec3.CoverAfterDelete` | nsec3.c:344-359 | a deleted NSEC3 gives its span to the previous one in the chain, around the end included; all other hashes keep their cover |
| `Nsec3.ProcessRange` | nsec3.c:713-778 | the names from one hash to the next get this NSEC3 as cover, the wrap-around at the end of the chain included |
| `Nsec3.ProcessPrehash` | nsec3.c:779-805 | all names whose true cover it is become correct |
| `Nsec3.RepairableAfterInsert` | difffile.c:549-573 | adding an NSEC3 and listing it keeps: each hashed name is correct or its true cover is listed |
| `Nsec3.RepairableAfterDelete` | difffile.c:432-471 | deleting an NSEC3 and listing its predecessor keeps it |
| `Nsec3.Zone.AddNsec3Trigger` | difffile.c:549-573 | the same over all three trees, with the list and the last NSEC3 |
| `Nsec3.Zone.DelNsec3Trigger` | difffile.c:432-471 | the same for a deletion that does not empty the chain |
| `Nsec3.Zone.ChangedRemove` | difffile.c:474-504 | names that are no longer hashed leave the trees |
| `Nsec3.Zone.ChangedAdd` | difffile.c:507-523 | newly hashed names get their true cover at once |
| `Nsec3.Zone.PrehashZone` | nsec3.c:807-825 | afterwards the list is empty and every cover and exact flag is that of a full recomputation |
| `Nsec3.Zone.PrecompileNewparam` | nsec3.c:581-614 | the full recomputation gives every name its true cover |
| `Nsec3.RepairedIsRecomputed` | nsec3.c:658-825 | with nothing listed, the index equals the recomputed index |
| `Nsec3.Zone.Transfer` | difffile.c:432-573 | after any run of NSEC3 and name changes and the repair, each tree holds exactly the names that the changes leave in it, and every cover and exact flag is what a full recomputation over the final chain gives |
| `Nsec3.Zone.Apply` | difffile.c:432-599 | one change: the chain and the membership of every name in the three trees |
| `Nsec3.SameNamesSameIndexes` | nsec3.c:581-825 | two zones with the same NSEC3s and the same names have equal chains, covers and exact flags, however they came to them |
| `Nsec3.TransferAsPrecompile` | nsec3.c:581-825 | a transfer with its repair leaves what a precompilation over the final names and NSEC3s leaves, if and only if its events add up to them |
| `HashedNames.GlueIff` | namedb.c:583-615 | the walk up for an NS RRset finds glue: exactly the names with a delegation at or above them and below the apex |
| `HashedNames.DsIff` | nsec3.c:422-428 | a name is hashed for its DS exactly when it is not the apex and has a DS or NS RRset |
| `HashedNames.AddedExcess` | difffile.c:507-599 | after a new RRset a tree that had all names that meet the condition has all that meet it now, the owner if it is an NSEC3 of another chain at a hashed name with nothing but signatures, and of the others exactly those at which the triggers do not look |
| `HashedNames.AddedRight` | difffile.c:507-599 | a right tree is right again if and only if the RRset is not such an NSEC3 |
| `HashedNames.StaysHashed` | difffile.c:577-599 | such a case: signatures first, then the NSEC3 that they sign, while another chain is in use; the name stays hashed |
| `HashedNames.AddedDsRight` | difffile.c:507-599 | the tree for DS is right after every new RRset |
| `HashedNames.RemovedExcess` | difffile.c:474-547 | after the last record of an RRset and the domains that nothing needs are gone, the tree has all names that meet the condition, the domains that are left bare, and all others but the owner and what is gone |
| `HashedNames.RemovedRight` | difffile.c:474-547 | a right tree is right again if and only if no domain above is left without data at or below it |
| `HashedNames.RemovedDsRight` | difffile.c:474-547 | the tree for DS is right after every deletion |
| `HashedNames.StaysBare` | difffile.c:681-698 | such a case: a domain to which another record refers stays hashed when the only data below it goes |
| `HashTrees.BareIsStranded` | namedb.c:140-153 | a domain is left bare exactly when it has no other data at or below it, is not delegated, and is kept in the table by a reference at or below it or by a domain off the way |
| `HashTrees.StrandedBefore` | difffile.c:603-616 | which domains will be stranded can be told from the table before the call, for every record: references count without those of the record, and domains off the way count when they are not above names of the record either |
| `HashTrees.AddKeeps` | difffile.c:576-599 | the triggers for a new RRset keep all names that meet the conditions in the trees, and it is exactly known which others are hashed |
| `HashTrees.DeleteKeeps` | difffile.c:525-547 | the same for a deletion |
| `HashTrees.OverMeans` | nsec3.c:413-419 | in every run, a name that is hashed although it does not meet the condition is a domain of the table, not below a delegation, and has no data at or below it, or NSEC3s and signatures only |
| `HashTrees.HashedTable.FindNs` | namedb.c:583-594 | the nearest delegation at or above a domain and below the apex |
| `HashTrees.HashedTable.HasOnlyNsec3` | nsec3.c:1006-1024 | true exactly for a domain with NSEC3s and besides only signatures |
| `HashTrees.HashedTable.MeetsHash` | nsec3.c:413-419 | true exactly for the names that are to be hashed, by the existence flags of the table |
| `HashTrees.HashedTable.MeetsDs` | nsec3.c:421-428 | the same for the DS hash |
| `HashTrees.HashedTable.LookBelow` | difffile.c:536-546 | the walk looks at exactly the domains below |
| `HashTrees.HashedTable.LookAbove` | difffile.c:848-857 | the walk looks at exactly the domains between the apex and the new RRset from which there is no data down to it |
| `HashTrees.HashedTable.AddRR` | difffile.c:743-861 | with all its triggers, from any state of a run: the table is as in `DomainTable`, the log of events accounts for the trees, no name that is to be hashed is missing, the DS tree is right, and the other names that are hashed are exactly those from before that the triggers do not look at and the NSEC3 of another chain; right trees stay right if and only if it is not that case |
| `HashTrees.HashedTable.DeleteRR` | difffile.c:626-741 | the same, the deletions of domains included: the other names are those from before that are still in the table, without the owner of an RRset that went, and the stranded domains, told from the table before the call; right trees stay right if and only if none is stranded |
| `HashTrees.HashedTable.Conditions` | nsec3.c:600-611 | the walk over the zone finds its domains in order and exactly those of them that meet the conditions |
| `HashTrees.RepairAsPrecompile` | nsec3.c:581-825 | after any run of records and the repair, the trees hold the names that the triggers left, and they, covers and exact flags are those of a precompilation of the records as they are then if and only if the trees were left right |
| `ZoneData.FindRRNum` | difffile.c:406-428 | the first record with the same class and rdata, by serial only for a SOA, TTL ignored |
| `ZoneData.AddToIds` | difffile.c:743-861 | the record joins the set of records; it fails exactly when it is new and its RRset has 65535 records |
| `ZoneData.DeleteFromIds` | difffile.c:626-741 | exactly the record leaves the set |
| `ZoneData.DeleteOtherSoa` | difffile.c:667-670 | a SOA with an unknown serial takes the first SOA of the apex with it |
| `ZoneData.Zone.AddRR` | difffile.c:743-861 | the code computes that function; a duplicate is a soft failure |
| `ZoneData.Zone.DeleteRR` | difffile.c:626-741 | the code, with the last record moved into the gap, computes that function |
| `Ixfr.Applier.ApplyRR` | difffile.c:1087-1231 | one record of a transfer does what the step function says |
| `Ixfr.Applier.ApplyIxfr` | difffile.c:963-1234 | one part does |
| `Ixfr.Applier.ApplyAll` | difffile.c:963-1234 | a sequence of parts does |
| `Ixfr.CuttingDoesNotMatter` | difffile.c:963-1234 | the result depends on the stream of records and on whether the last part is empty, not on how it is cut |
| `Ixfr.DeltaRun` | difffile.c:1182-1231 | one version step deletes and adds what it lists, SOAs included; it is refused exactly when the new version has an RRset with more than 65535 records |
| `Ixfr.IxfrResult` | difffile.c:963-1234 | the zone is patched step by step and has the new SOA only; without the end marker the final SOA is deleted instead; the transfer is refused exactly when some version on the way has an RRset with more than 65535 records |
| `Ixfr.IxfrApplied` | difffile.c:963-1234 | a well-formed incremental transfer is applied, however it is cut, if and only if no version has an RRset with more than 65535 records, and then has the right result, with exactly one SOA, if and only if the last part is not empty |
| `Ixfr.AddRun` | difffile.c:800-804 | a run of additions gives the union with the zone, and is refused exactly when an RRset of the union has more than 65535 records |
| `Ixfr.AxfrResult` | difffile.c:1106-1176 | a full transfer replaces whatever was there, with TTLs and all rdata as sent when its records are different; it is refused exactly when an RRset of it has more than 65535 records; a SOA-only zone is recognised by the equal serials |
| `Ixfr.AxfrApplied` | difffile.c:963-1234 | the same for any cutting into parts |
| `Axfr.Producer.Message` | axfr.c:19-159 | a message continues the stream where the last one ended, and is not empty when each record of the zone fits an empty message |
| `Axfr.Transfer` | axfr.c:67-158 | finitely many messages, none of them empty, together SOA, body, SOA, for any capacity function under which each record of the zone fits an empty message |
| `Axfr.BodyIsZone` | axfr.c:101-138 | the body is every other record of the zone exactly once, in canonical order of owners |
| `Axfr.Replicate` | axfr.c:19-159 | a secondary with any contents that applies the messages ends with exactly the records of the primary, TTLs and the rdata of the SOA included |
| `Wire.DecodeName` | dname.c:102-170 | a position that stands for a name yields that name, up to case, and the position after it; the loop ends on any message |
| `Wire.DecodesLength` | dname.c:102-170 | a position stands for names of one length only |
| `Packet.Query.PutDnameOffset` | query.c:69-84 | the entry and its stack element, for the offset cut to 16 bits, within both limits |
| `Packet.Query.ClearDnameOffsets` | query.c:86-96 | takes back exactly the entries made since the mark |
| `Packet.ForgottenExactly` | query.c:69-96 | for the whole run of labels since the mark: everything they recorded is taken back if and only if the position of each label that got an entry, cut to 16 bits, is at or beyond the mark |
| `Packet.ForgottenBelow` | query.c:69-96 | with all positions since the mark below 65536, table and stack are those at the mark |
| `Packet.WrappedOffsetStays` | query.c:69-96 | on any table with room, a label at position 65540 leaves a stale entry for offset 4 behind |
| `Packet.Query.AddCompressionDomain` | query.c:110-123 | the question name and its ancestors become pointer targets, and all entries decode |
| `Packet.Query.ClearCompressionTables` | query.c:98-108 | only the entry of the query name stays |
| `Packet.Query.EncodeDname` | packet.c:21-47 | the name is written, the table keeps its form; as long as no label has started at 65536 or beyond, the name written decodes to the domain and all table entries decode using bytes written before |
| `Packet.Query.EncodeRR` | packet.c:49-108 | the record is complete with owner, type, class, TTL, length and rdata and within the limit, or it did not fit and the message is as before; table and stack go back too, and all names of the message decode, as long as no label was tried at position 65536 or beyond |
| `Packet.ReadOwner` | dname.c:102-170 | the owner of every record in the message reads back as the name of the domain, if no label up to it started at 65536 or beyond |
| `Packet.ReadRdataName` | dname.c:102-170 | so does every compressed name in rdata |
| `Answer.WantedIsComplete` | packet.c:145-190 | whatever the rotation, all records and all wanted signatures are there once |
| `Answer.EncodeRRset` | packet.c:110-212 | for any size limit, TCP included: an answer or authority RRset is complete, or absent with TC set; later sections never set TC and are cut short over TCP only |
| `Answer.EncodeSection` | answer.c:80-91 | one section: the complete RRsets in order, or TC |
| `Answer.EncodeAnswer` | answer.c:60-116 | for any size limit, TCP included: the message fits, the counts are those of the records left, in section order; with TC clear the answer and authority sections are complete; a delegation over UDP has an address record when one was to be added; all names decode when no label can start at 65536 or beyond, at the highest position where its record can be tried |
| `Answer.SmallAnswer` | answer.c:60-116 | that is so for every answer that without compression ends at 65536 at most, TCP included |
| `Packet.Query.constructor` | server.c:553-554 | the state after the question section, where the query name at offset 12 is the only entry |
| `Chase.Answering.Add` | answer.c:24-58 | 1 exactly when the RRset is new or moves to an earlier section, and then the measure on free slots and section ranks goes down |
| `Chase.Answering.AnswerDomain` | query.c:947-1018 | ends on every database, keeps the invariants, pays for each followed CNAME with the measure |
| `Chase.Answering.FollowDname` | query.c:1060-1106 | the same for a DNAME and its synthesised CNAME |
| `Chase.Answering.AnswerAuthoritative` | query.c:1030-1200 | the same, wildcards included |
| `Chase.Answering.AnswerLookupZone` | query.c:1206-1289 | the same |
| `Chase.AnswerQuery` | query.c:1291-1303 | the chase ends, follows no alias twice, and follows at most as many as the answer has slots |
| `Chase.LinksFit` | answer.c:24-58 | different followed aliases sit in different slots |
| `Region.Region.Alloc` | region-allocator.c:246-317 | the block was not in use, is aligned, inside a chunk and disjoint from all others; blocks in use stay; the accounting holds |
| `Region.Region.RecycleLeftover` | region-allocator.c:283-295 | the aligned rest of the chunk becomes a free small block at the head of the bin of its length; with less than the alignment left nothing happens |
| `Region.Region.RecycleSmall` | region-allocator.c:420-454 | the block goes into the bin of its size |
| `Region.Region.RecycleLarge` | region-allocator.c:455-468 | the object leaves the list and the total |
| `Region.Region.FreeAll` | region-allocator.c:371-411 | everything is gone, the first chunk stays |
| `Region.Carved` | region-allocator.c:305-316 | a block carved out of a chunk is disjoint from all blocks before |
| `Rrl.AttenuatedWithinOne` | rrl.c:309-322 | ageing by 2 to 16 steps at once is never above, and at most 1 below, ageing step by step |
| `Rrl.Limiter.Update` | rrl.c:353-426 | the bucket of the class is updated in 32-bit arithmetic with circular time, the others stay |
| `Rrl.NeverLimited` | rrl.c:353-447 | a class with at most lm / 2 queries in each clock second stays below the limit in every run, whatever collides and however the clock jumps |
| `Rrl.SteadyRate` | rrl.c:375-426 | in every run in which a class sends k queries in each consecutive second and has its bucket for itself, the rate with the last query of a second is 2k - 1 from the 2k-th second on, below the limit exactly when k is at most lm / 2 |

## Left out

- Pointers are addresses of an explicit store and not C memory: aliasing of freed nodes, array capacities (growing and halving of arrays in radtree.c) and allocation failure are not modelled; the addresses that an allocator would return are parameters.
- radname_search, a streaming walk of its own for exact matches (radtree.c:1188-1270); `Radname.FindNameLessEqual` models the streaming walk for the closest match. radname_insert and radname_delete combine the conversion with the operations above.
- RbMap.RbMap.Insert: the keys of one run are a finite set, named when the tree is made; a node's place in their order, from which the other modules work, is a ghost field.
- The domain table keeps its names as a sorted sequence; `NameTree` ties its search to the radix tree, the insertion into the tree is `RadTree.Insert` on the converted name; a domain's parent is the domain with the shorter name. RRsets of a domain are modelled by the records that are at it, with the position of a record in its RRset as its position among them; `Nsec3`, `ZoneData` and `DomainTable` each model the part of add_RR and delete_RR that concerns them. wildcard_child_closest_match and the prehash link of a deleted domain are not part of it.
- delete_zone_rrs clears the records of the zone in one step; its traversal and its own existence check are not modelled.
- NSEC3 hashes are abstract, totally ordered and free of collisions; the prehash list is a sequence; emptying the chain, a change of NSEC3PARAM, the SOA check of the apex NSEC3 and the answers built from covers are not modelled.
- Nsec3.Zone.Transfer: an event that would empty the chain is skipped.
- HashTrees.HashedTable.AddRR: the table holds one zone, with its SOA at the apex only; whether an NSEC3 joins the chain in use is a parameter, as are the names in that chain in `HashTrees.RepairAsPrecompile`; a record with the NSEC3PARAM in use is like any other.
- HashTrees.HashedTable.DeleteRR: as for additions; the apex keeps data. Domains that go with the references of the record leave the trees after the last of them, not one by one.
- Transfer files are sequences of parts, each a sequence of parsed records; rdata is a normalised value, so errors in the wire format of a part are not modelled. Serial checks before the transfer are not modelled.
- Packet.Query.EncodeRR: beyond position 65535 the offset argument is cut to 16 bits, and then nothing is claimed about what the names of the message decode to; `Packet.ForgottenExactly` and `Packet.WrappedOffsetStays` say what becomes of the table. A number stands for one name, which leaves out a wildcard match under the number of a CNAME target whose offset was not recorded.
- Axfr.Producer.Message: whether a record still fits is an arbitrary function of the message number, the records in the message and the record; it is not tied to `Packet.Query.EncodeRR`.
- The header of a message is separate from its bytes: the TC bit and the counts are fields.
- Answer.EncodeRRset: the counter behind round robin is a parameter and does not overflow.
- Chase.Answering.AnswerDomain: denial proofs, additional records and delegations are arbitrary lists of RRsets from an oracle; the response code and flags are not modelled.
- Region.Region.Alloc: unused_space and the list of cleanups are not modelled; recycling is on.
- Rrl.Limiter.Update: logging, whitelists and the classification of queries are not modelled; a limit of 1 is outside `Rrl.NeverLimited`, since the first query already reaches it.
- TSIG, sockets, processes, configuration, zone files, the on-disk database and statistics.
