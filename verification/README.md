# The naming server's path index

The naming server of this network file system keeps one index of all paths: a trie in which every node
carries a count, an end mark and a list of the storage servers that know the path. Client commands
(create, deletedir, deletefile, copydir, read, write, info) and the registration of storage servers
change that trie, an LRU cache sits in front of it, and the trie can be written to a file and read back.
Around the index, files are copied in chunks over two connections, every storage server has its data
repeated on two others of its group of three, and semaphores keep commands, redundancy rounds,
registrations and disconnects apart.

The project models these parts in the form the source has them. Loops and updates in place are methods
on classes (`Tries`, `LRUCache`, buffers and sockets); each is proved against a function on values, and
the properties are proved about those functions and about whole runs.

| module | what it holds |
|---|---|
| `Wrappers`, `Words`, `PathNames`, `CText` | options, strings, `strtok` and path components, decimal printing and scanning |
| `TrieModel`, `TrieWalk` | the counted trie as a map, the counting invariant, the order of enumeration |
| `TriesHeap`, `TrieReading` | the trie on the heap: insert, delete with freeing, search, enumeration through one buffer |
| `TrieText`, `TrieTextExact`, `TrieFiles` | the file format, exactly what it carries, the writer and the reader |
| `NamespaceModel`, `NamingTrie` | the trie side of the command handlers, as relations and on the heap |
| `Listings` | what `strtok` makes of a text, and so what a registration and a create store |
| `Namespace`, `NamespaceRuns`, `CopyGuard` | the commands as a state machine, whole runs, the client's copydir check |
| `CopyRefusals` | exactly what a copydir leaves behind when some of its creates fail |
| `SearchHistory`, `SearchOrder` | what a search, in which order, and a collected entry say about the insertions and deletions that went before |
| `LruModel`, `LruHits`, `LruHeap` | the cache as a list of entries, exactly what it finds, and the doubly linked list with shared hash chains |
| `NamingServer`, `NamingRuns` | the handlers that keep the cache in step with the trie, and whole runs of them |
| `NamingDeletes`, `NamingFailures` | deletedir and deletefile on trie and cache together, and short runs that end badly |
| `Placement`, `Redundancy`, `SemaphoreCalls`, `ChunkedCopy` | replica placement and failover, the semaphore protocol and the calls of its threads, copyfile |

The ghost state of the trie is a multiset of outstanding insertions, because a create inserts every
ancestor of its path again. The counting invariant (`TrieModel.Counts`) says: a node other than the root
is linked exactly when something outstanding starts with its word, its count is the number of those
insertions, and a marked node is outstanding and has a port. Nodes that the delete frees leave the
footprint `Repr`, and every node a method touches must be in it.

Some results say where the code does not do what it is for:

* `deletefile` deletes what `nextentry` finds from the path. It hits the path exactly when no other
  stored path continues its name (`Namespace.DeleteFileHits`); otherwise it can take a directory and
  leave that directory's content listed (`NamespaceRuns.DeleteFileOrphans`). A deletedir of that directory
  still finds it and ends at a missing node: create `p`, create `p+n/r`, deletefile `p`, deletedir `p+n`
  (`NamingFailures.MissingDirectory`, `NamespaceRuns.OrphanedDirectory`). `NamingDeletes.DeleteDir` says
  exactly when that happens.
* A path that deletefile took in place of another stays cached, so that trie and cache are out of step
  (`NamingFailures.StaleAfterDelete`), and a deletefile of it meets a missing node
  (`NamingFailures.MissingNode`); in step this cannot happen (`NamingServer.InStepNeverMissing`). Exactly when
  trie and cache are still in step after a delete is said by `NamingDeletes.DeleteFileSynced` and
  `NamingDeletes.DeleteDirSynced`.
* `deletedir` deletes the directory itself once and searches by ports, not by mark, so a deleted directory
  is still found while something outstanding starts with its name (`NamespaceRuns.DeletedDirStillFound`).
  `NamespaceRuns.SecondDeleteExactly` says when the next deletedir then deletes a word that is not there, and
  `NamespaceRuns.DeleteDirTwice` reaches such states. What that delete does is known too: it takes another
  word instead, or leaves counts that fit no words at all (`TrieModel.StrayDeleteExactly`); three creates and
  two deletedirs lead to the latter (`NamespaceRuns.SecondDeleteBreaks`).
* A search lists the servers in the order in which they were first given, so reads go to the first one
  (`SearchOrder.PickedIsFirstGiven`), while a directory is collected for copydir with the one given last
  (`SearchOrder.CollectedServer`); with two servers they differ (`SearchOrder.TwoServers`).
* A `copydir` that meets a refusal ends there and takes nothing back (`CopyRefusals.CopyDirExactly`).
* A `copydir` with one argument sends an empty second path. The client accepts it unless the first path starts
  with a slash (`CopyGuard.GuardMeans`), and every listed path below the source is then created again where it
  is: the listing stays (`NamespaceRuns.NoSecondPath`), but a record keeps its ports if and only if it knew the
  server before (`NamespaceRuns.NoSecondPathRecords`).
* A create whose connection was closed by the storage server is cached although nothing was inserted. The
  cache then stays in step with the trie exactly when the trie already named that server
  (`NamingServer.Unanswered`); at the start it does not (`NamingFailures.SilentCreate`).
* The next pointers of the cache's list double as hash chains, so a lookup can hide other paths: of the paths
  found in one slot, looking up the one used longest ago hides all the others, and an eviction hides all paths of
  the evicted entry's slot. `LruHits.GetHidesExactly`, `LruHits.PutHidesExactly` and `LruHits.RemoveHidesExactly`
  say exactly what is found after each operation of any run.
* `removeForDelete` leaves the hash slots in order exactly for some entries
  (`LruHeap.LRUCache.RemoveForDelete`). Two puts are enough for an entry that is not one of them
  (`LruModel.TwoSlots`), and its path is then still found (`NamingFailures.RemovedStaysFound`).
* The size of a copied file passes through a `float`. Sender and receiver agree on the number of chunks
  exactly under the condition in `ChunkedCopy.ExpectedIs`; the first size that fails is 16777217.
* The documentation says that commands wait while a redundancy round runs (lines 9-10 of the repository's
  README.md). In the code they do not wait for the red lock: `sem_trywait` gives up at once, and the lock is
  posted anyway. They only wait for each server whose semaphore they take. A round can start beside others
  exactly when such stray posts are at least as many as the holders of the red lock
  (`Redundancy.RoundStartsExactly`), and with any number of them a circular wait exists exactly when two rounds
  of one group cross (`Redundancy.CircularWaitExactly`). One stray post is enough for that
  (`Redundancy.StrayPostDeadlocks`), and rounds that cross never move again (`Redundancy.CrossingStays`).
* A list read from a file holds at most three ports; further ones replace the third
  (`TrieText.PortsKeptExactly`); a word stored by four servers loses one (`TrieText.FourServers`). A word
  that starts like a number is read as ports of the line before it, so of two names one can be lost
  (`TrieTextExact.TwoNames`). `TrieTextExact.SaveLoadIff` says exactly when a saved trie comes back.

Assumptions that the source makes of its callers appear as preconditions: paths are not empty and their
bytes are below 128 and not zero; the word given to `DeleteNode` is linked; the cache has room for
two entries (the server uses ten); words fit the 512-byte buffers. Answers of storage servers, the choice
of a server and the availability of servers are parameters.

## Model

| member | source | states |
|---|---|---|
| TrieModel.AddPortsFacts | Tries.c:131-145 | the three guarded insertions add exactly the three ports, keep the list free of duplicates and leave it non-empty |
| TrieModel.WalkedAt | Tries.c:114-128 | after i rounds of the walk exactly the prefixes shorter than i are counted once more, and exactly the prefixes up to length i are linked in addition |
| TrieModel.WalkedEnd | Tries.c:110-149 | the walk followed by marking is the one-step insertion |
| TrieModel.InsertCounts | Tries.c:110-149 | inserting any word keeps the counting invariant for one more outstanding copy |
| TrieModel.DeleteCounts | Tries.c:495-533 | deleting an outstanding word keeps the counting invariant for one copy less |
| TrieModel.OutstandingLinked | Tries.c:500-509 | every node on the path of an outstanding word exists, so the first walk of a delete never meets a missing child |
| TrieModel.LinkedClosed | Tries.c:114-128 | every prefix of a linked word is linked and counts at least as much |
| TrieModel.DeleteWalks | Tries.c:495-533 | for any linked word: after counting down, the nodes at zero are those of the path from one length on, and cutting everything from there on is the one-step deletion |
| TrieModel.DeleteIsCut | Tries.c:513-532 | what the second walk takes off is exactly what hangs on a path node whose count reached zero |
| TrieModel.DeleteOutstanding | Tries.c:495-533 | for an outstanding word only the path nodes at zero come off, and nothing hangs on them |
| TrieModel.StrayDeleteTakes | Tries.c:495-533 | a delete of a linked word that is not outstanding, with a path node counted once, deletes the one outstanding word below that node instead |
| TrieModel.StrayDeleteBreaks | Tries.c:495-533 | with no such node it leaves counts that fit no outstanding words at all |
| TrieModel.StrayDeleteExactly | Tries.c:495-533 | so after such a delete the counts are right for some outstanding words if and only if a path node was counted once |
| TrieModel.LeafOutstanding | Tries.c:495-511 | a linked node without children is itself outstanding |
| TrieModel.CountIsOwnPlusChildren | Tries.c:110-128 | a node's count is the number of its own copies plus the counts of its children |
| TrieModel.InsertThenDelete | Tries.c:110-149 | an insertion undone by a delete restores every count and every linked node; only the word's own mark and ports can differ |
| TrieModel.InsertThenDeleteRestores | Tries.c:495-533 | the trie is restored completely if and only if the word had no node, or was unmarked and already knew the ports |
| TrieWalk.NoKidIsLeaf | Tries.c:354-365 | the scan of the child array finds no child exactly at a leaf |
| TrieWalk.RecIsLeast | Tries.c:351-366 | the walk ends at the least marked word or leaf strictly below its start in dictionary order, and at the start exactly when that is a leaf |
| TrieWalk.NextEntryOutstanding | Tries.c:368-385 | if anything outstanding starts with the path, what nextentry returns is outstanding, hence a legal argument of DeleteNode |
| TrieWalk.NextEntryIs | Tries.c:351-385 | nextentry gives nothing for a missing path, a leaf for itself, and otherwise the least marked word or leaf strictly below |
| Words.LessIs | Tries.c:354-365 | least is meant in dictionary order: the smaller character at the first difference, a prefix before its extensions |
| TrieWalk.ListingFacts | Tries.c:278-303 | the enumeration holds exactly the marked words strictly below its start, in strictly increasing order |
| TrieWalk.IncreasingNoDup | Tries.c:278-303 | so no word is emitted twice |
| TriesHeap.CheckForPortExistance | Tries.c:95-108 | 1 exactly when the port is not in the list |
| TriesHeap.TrieNode.constructor | Tries.c:74-86 | a new node has 128 empty children, count zero, no mark and no ports |
| TriesHeap.Tries.constructor | Tries.c:88-93 | a new trie is the root alone and is well formed |
| TriesHeap.Tries.Descend | Tries.c:119-127 | stepping down links an empty node if there was none and changes nothing else |
| TriesHeap.AddIfAbsent | Tries.c:131-135 | one port is added in front if it was missing; every other record stays |
| TriesHeap.CountPath | Tries.c:112-128 | the counting loop performs the walk of the model and ends at the word's node |
| TriesHeap.InsertTries3 | Tries.c:110-149 | the heap trie stays well formed and is the model insertion of the old one |
| TriesHeap.CountDown | Tries.c:497-511 | the first walk takes one from every count on the path and clears the mark, and relinks nothing |
| TriesHeap.UnlinkOne | Tries.c:513-532 | one round of the second walk follows the path even through nodes already unlinked, severs at the first zero node and frees its own node when it counts zero |
| TriesHeap.UnlinkPath | Tries.c:512-532 | the second walk unlinks what hangs on the zero nodes of the path and frees exactly those nodes |
| TriesHeap.DeleteNode | Tries.c:495-533 | for any linked word: the heap trie becomes the model deletion and the footprint loses exactly the path nodes counted zero; for an outstanding word the counting invariant holds for one copy less and nothing else is lost |
| TrieReading.Find | Tries.c:210-220 | the walk ends at the node of the word, or at NULL exactly when the word is not linked |
| TrieReading.SearchSubstring | Tries.c:534-549 | 1 exactly when the word is linked |
| TrieReading.SearchWords | Tries.c:208-236 | the ports come in front of the list, element k being element n-1-k of the node's n ports; an absent word leaves the list alone; a word without ports turns the size of an empty list to -1 |
| TrieReading.ReversedSame | Tries.c:223-229 | the copied list has the same ports and the same length |
| TrieReading.ReversedAt | Tries.c:223-229 | element k of the copied list is element n-1-k of the node's n ports |
| TrieReading.RecInto | Tries.c:351-366 | the shared buffer ends as the string that the model walk finds |
| TrieReading.NextEntryInto | Tries.c:368-385 | a fresh buffer with the model's next entry, the empty string for a missing path |
| TrieReading.PrintTriesFile | Tries.c:278-303 | through one shared buffer the lines of the enumeration below the node are appended in order, and the node's own part of the buffer is unchanged |
| TrieReading.CollectedAt | Tries.c:307-326 | the collected list is the enumeration reversed, and the entry of a word names the port at the head of its list |
| TrieReading.TriesPortsFn | Tries.c:307-326 | the entries below the node are put in front of the list, last word first, although all are spelled in one buffer |
| TrieReading.LLTriesPortsFn | Tries.c:328-349 | the list of everything marked behind the directory's slash, empty when the directory or its slash is missing |
| PathNames.Strtok | Naming_server.c:337-345 | one call cuts the first token and leaves a shorter rest with the remaining tokens |
| PathNames.TokensAreNames | Naming_server.c:337-343 | tokens are not empty and hold no slash |
| PathNames.PathsFromAre | Naming_server.c:336-346 | the paths built by the loop are exactly the component prefixes of the last one that are not ancestors of the start |
| PathNames.ComponentPathsClosed | Naming_server.c:336-346 | with every inserted path each of its ancestors is inserted too |
| PathNames.ComponentPathsOfNormal | Naming_server.c:336-346 | for a normalised path the inserted paths are exactly the path and its ancestors |
| PathNames.ComponentPathsOfTwo | Naming_server.c:336-346 | a path of two components is inserted behind its directory |
| Listings.TokensOfText | Naming_server.c:1666-1675 | for any delimiter: words that are not empty and hold none, laid out with any number of delimiters in front and behind and at least one between two of them, are exactly the tokens, in order |
| Listings.TextOfTokens | Naming_server.c:1666-1675 | and every text is such a layout of its tokens |
| Listings.PathsOfText | Naming_server.c:336-346 | whatever slashes a path has, path k that a create inserts is its first k+1 components joined by single slashes |
| NamespaceModel.UnmarkCounts | Naming_server.c:543-554 | clearing a mark keeps the counting invariant |
| NamespaceModel.DrainStep | Naming_server.c:451-459 | deleting one outstanding word below the directory keeps the loop's invariant and leaves one copy less below it |
| NamespaceModel.DirDeletedFrom | Naming_server.c:466-466 | after the drain the directory is still outstanding, and deleting it once completes the command |
| NamespaceModel.StaysLinked | Naming_server.c:434-466 | after the drain the directory is still linked if and only if something other than its content starts with its name |
| NamingDeletes.DrainOne | Naming_server.c:454-457 | the word nextentry finds at or below the slash node leaves the cache and the trie, no new node appears, and no other node moves |
| NamingDeletes.Drain | Naming_server.c:446-464 | the loop ends, touches no freed node, and nothing below the directory is outstanding afterwards, while every other word keeps multiplicity, mark and ports; the words it found, in order, are those that left the cache |
| NamingDeletes.DeleteDir | Naming_server.c:372-482 | refused exactly when the path has no port; otherwise the subtree is drained and the directory deleted once; the last delete meets a missing node exactly when everything outstanding from the directory on was its content; an outstanding directory loses one copy and its mark, all other records unchanged; the deleted words and then the directory are removed from the cache in this order |
| NamingDeletes.DeleteDirSynced | Naming_server.c:372-482 | of a trie and cache in step: they are in step afterwards if and only if each of these removals met a removable entry, and every list with servers in it that is still cached is of a path that is still linked |
| NamingDeletes.TidyAfterDir | Naming_server.c:434-466 | when lists with servers are cached for outstanding paths only and can be found, deletedir of an outstanding directory leaves no such list for a path that is gone |
| NamingTrie.FirstPort | Naming_server.c:528-534 | the first server of a list that is not -1 |
| NamingTrie.SearchFirst | Naming_server.c:501-534 | the server is the first known one of the list taken from the cache, or of the trie's list in search order |
| NamingDeletes.DeleteFile | Naming_server.c:498-592 | the server is the first known one of the list that was cached, or of the trie; without one nothing but the cache changes; with one, a missing node is met exactly when the path is not linked; otherwise the path loses its mark and the word nextentry finds is deleted, which is outstanding; the path leaves the cache, a second time when a server is known |
| NamingDeletes.DeleteFileSynced | Naming_server.c:498-592 | of a trie and cache in step: no missing node is met, and they are in step afterwards if and only if the removals met removable entries, and no list with servers in it is still cached for a path node, counted once, of the word that nextentry found |
| NamingDeletes.TidyAfterFile | Naming_server.c:554-570 | when lists with servers are cached for outstanding paths only and can be found, the last condition holds if and only if the word found is the path itself, or is stored more than once, or has no server cached |
| NamingTrie.InsertPath | Naming_server.c:336-346 | the strtok loop inserts the component prefixes of the path in order |
| NamingTrie.Register | Naming_server.c:1655-1679 | every line of the listing is inserted for the server, in order |
| Listings.RegistrationLists | Naming_server.c:2022-2022 | a registration lists exactly the lines of its text in addition, one more copy of each, and puts the registering server in front of their ports unless they know it |
| NamingTrie.CopyCells | Naming_server.c:1183-1474 | entry by entry the path behind path2 is created; a refusal ends the command, a missing server skips the entry |
| NamingTrie.CopyDir | Naming_server.c:1153-1182 | both paths must be linked; then everything collected below path1 is created behind path2 |
| CopyRefusals.CopyIntoExactly | Naming_server.c:1183-1474 | for any answers, with r the first refused entry or the number of entries: a path is listed afterwards if and only if it was or is inserted with an acknowledged entry before r, and its ports grow by exactly the servers of those entries |
| CopyRefusals.CopyIntoCounts | Naming_server.c:1399-1411 | and the counts are those of one more copy of each path inserted with those entries |
| CopyRefusals.CopyDirExactly | Naming_server.c:1153-1474 | of the whole command: with both paths linked, the paths listed below path1 are created behind path2 from the last to the first in dictionary order, up to the first refusal; otherwise nothing is |
| CopyGuard.Accepts | Client.c:483-518 | for any two paths, the empty one too: the client accepts exactly when they differ and neither with a slash behind it is a prefix of the other with a slash |
| CopyGuard.GuardMeans | Client.c:473-518 | that is: neither path equals the other or is its ancestor; for an empty second path: the first does not start with a slash |
| Namespace.InsertAllFacts | Naming_server.c:1399-1411 | a series of insertions marks exactly its words in addition and leaves every other mark and port list alone |
| Namespace.CreateKeeps | Naming_server.c:336-346 | a create keeps counts, normal paths and listed ancestors |
| Namespace.RegistrationKeeps | Naming_server.c:1655-1679 | so does a registration whose listing names parents first |
| Namespace.DirDeletedMarks | Naming_server.c:434-466 | after a deletedir exactly the directory and what lies behind its slash is no longer listed |
| Namespace.DeleteDirKeeps | Naming_server.c:434-466 | a deletedir of an outstanding directory keeps the namespace closed |
| Namespace.DeleteFileHits | Naming_server.c:554-570 | deletefile deletes the path it was given if and only if no other outstanding word starts with it |
| Namespace.DeleteFileMarks | Naming_server.c:554-570 | a deletefile removes exactly two marks: that of the path and that of the word nextentry found |
| Namespace.DeleteFileClosedExactly | Naming_server.c:543-570 | the namespace stays closed if and only if neither of those two is an ancestor of another listed path |
| Namespace.DeleteFileKeeps | Naming_server.c:543-570 | a deletefile of a path that no other stored path continues keeps the namespace closed |
| Namespace.CopyIntoFacts | Naming_server.c:1183-1474 | a copydir, however it is answered, only adds component prefixes of copied paths and keeps counts and closure; with all answers YES it adds all of them |
| NamespaceRuns.StepKeeps | Naming_server.c:1493-1533 | every admissible command keeps the invariant |
| NamespaceRuns.RunKeeps | Naming_server.c:1491-1536 | in every state of every admissible run counts are right and every listed path has all its ancestors listed |
| NamespaceRuns.ListedBelowAre | Tries.c:328-349 | what copydir collects is exactly what is listed with the directory as an ancestor |
| NamespaceRuns.CopyDirAdds | Naming_server.c:1182-1474 | with all answers YES the listing grows by exactly the component prefixes of path2/w for the listed w behind path1; other records stay |
| NamespaceRuns.GuardExcludesItself | Client.c:483-518 | an accepted copy, with or without a second path, does not copy into its own source |
| NamespaceRuns.GuardedCopyKeepsSource | Client.c:473-518 | an accepted copy, however it is answered, leaves the listing behind the source's slash unchanged, and with a second path the records there, too |
| NamespaceRuns.NoSecondPath | Client.c:473-480 | without a second path every copy leaves the whole listing unchanged |
| NamespaceRuns.NoSecondPathRecords | Naming_server.c:1183-1474 | but the record of a listed path below the source is the same afterwards if and only if it knew the server that all creates went to |
| NamespaceRuns.SourceKeptExactly | Naming_server.c:1182-1474 | for any copydir with something below the source, the source's listing stays as it is if and only if path1/ is not a prefix of path2/path1/ |
| NamespaceRuns.DeleteFileOrphans | Naming_server.c:560-570 | for all names p, n, r: with p and p+n/r stored, deletefile of p leaves a listed path without its directory |
| NamespaceRuns.NextIsDirectory | Tries.c:368-385 | in that state nextentry from p finds the directory p+n |
| NamespaceRuns.OrphanedDirectory | Naming_server.c:554-570 | when p+n was stored once, after that deletefile it still has ports although nothing of it is outstanding, and all outstanding words from it on are its content |
| NamespaceRuns.DeletedDirStillFound | Tries.c:221-230 | after a deletedir the directory is not listed, yet its ports are found if and only if an outstanding word starts with its name |
| NamespaceRuns.SecondDeleteExactly | Naming_server.c:382-466 | after a deletedir of a listed directory the next one finds it although nothing of it is outstanding, if and only if it had one copy and another outstanding path outside it starts with its name |
| NamespaceRuns.DeleteDirTwice | Naming_server.c:382-397 | for all names p and n: with p and p+n stored once each, deletedir of p leads there |
| NamespaceRuns.SecondDeleteBreaks | Naming_server.c:382-466 | for all names p, n and k: creates of p, p+n and p+k and a deletedir of p reach a state with right counts in which a second deletedir of p leaves counts that fit no words at all |
| NamespaceRuns.TwoNames | Naming_server.c:336-346 | the states of these examples are reached by two creates from the empty trie, and what they hold |
| SearchHistory.RunCounts | Tries.c:110-149 | every run of insertions and legal deletions keeps the counting invariant |
| SearchHistory.PortsAreGiven | Tries.c:131-145 | a node's ports are exactly those given to its word since the node was last created |
| SearchHistory.SearchTellsHistory | Tries.c:208-236 | a search reports 0 if and only if nothing outstanding extends the query, -1 if and only if the query itself was not inserted since its node was created, and otherwise the distinct ports given since then, each once |
| SearchHistory.SearchNew | Tries.c:208-236 | the search into a new list leaves the size and the ports of which this is said |
| SearchOrder.FoundIs | Tries.c:208-236 | in every run the list found is the list of the ports given since the node was last created, in order, each where it was given first |
| SearchOrder.FoundInOrder | Tries.c:223-229 | so of two servers found the one in front was given first |
| SearchOrder.FirstKnownIs | Naming_server.c:528-534 | the server picked from a list is the first one that is not -1, and -1 if there is none |
| SearchOrder.PickedIsFirstGiven | Naming_server.c:619-643 | a search that the cache does not answer leads to the server that was given first since the node was last created, of those that are not -1 |
| SearchOrder.FrontIsLastNew | Tries.c:131-145 | the port at the head of a node's list is the one that came last as a new one |
| SearchOrder.CollectedServer | Tries.c:307-326 | in every run a path is collected with the server of the latest insertion that brought a new one since its node was last created |
| SearchOrder.TwoServers | Tries.c:223-229 | for all names d and f: after create d on server 0 and d/f on server 1, d is read from server 0 and collected with server 1 |
| LruModel.PutMakesRoom | LRU.c:111-148 | making room before appending, as the code does, comes to the same as appending and then evicting |
| LruModel.TouchKeeps | LRU.c:88-97 | moving an entry to the end keeps one anchor per slot, increasing times, and at most one visible entry per path |
| LruModel.AppendKeeps | LRU.c:117-147 | so does a new entry, which then holds the latest value of its path |
| LruModel.EvictKeeps | LRU.c:42-57 | so does an eviction, which may hide live entries of the slot it clears; every remaining entry was used later |
| LruModel.PutKeeps | LRU.c:111-148 | a put keeps order, capacity and freshness of every visible entry |
| LruModel.GetKeeps | LRU.c:80-102 | so does a get |
| LruModel.RunKeeps | LRU.c:80-204 | in every run from the empty cache the list stays in order and within capacity, and every visible entry holds what was put last for its path |
| LruModel.HitIsLatestPut | LRU.c:80-102 | in every run of get, put and removals a hit returns the list of the most recent put for that path, and the path was not removed since |
| LruModel.MissesUntilPut | LRU.c:80-102 | in every run a path that misses goes on missing until it is put |
| LruModel.RemovedMisses | LRU.c:181-204 | in every run a removed path misses until it is put again |
| LruModel.RunStamps | LRU.c:80-204 | in every run a visible entry carries the time of the last put or hit of its path |
| LruModel.RunUsed | LRU.c:80-204 | every entry, hidden ones too, was put or hit at the time it carries |
| LruModel.OldestFirst | LRU.c:42-57 | an entry, visible or hidden, was last moved before the last use of every visible entry behind it; so the head that is evicted is the least recently used |
| LruModel.RemoveKeeps | LRU.c:181-204 | removing a removable entry keeps all invariants and leaves nothing visible for its path |
| LruModel.TwoSlots | LRU.c:163-180 | two puts of paths of different slots reach a cache in which neither entry is removable |
| LruModel.LettersDiffer | LRU.c:151-162 | the paths a and b are of different slots |
| LruHits.Djb2Is | LRU.c:151-162 | the hash is the path's number to the base 33 behind the digit 5381, cut to 64 bits |
| LruHits.SlotIs | LRU.c:82-83 | and its slot is that number modulo 31 |
| LruHits.AnchorIsOldest | LRU.c:82-100 | in every run a slot points at the entry that was used longest ago of those found in it |
| LruHits.GetHidesExactly | LRU.c:80-102 | in every run, exactly what every path gives after a get: a hit of the path used longest ago of those found in its slot hides the others of the slot; nothing else changes |
| LruHits.PutHidesExactly | LRU.c:111-148 | the same after a put: a known path behaves like a hit and gets its list; a new path is found and hides nothing, unless the cache is full: then exactly the paths in the slot of the head are hidden, the new one among them |
| LruHits.RemoveHidesExactly | LRU.c:181-204 | the same after a removal: the path is not found, every other one as before |
| LruHeap.LRUCache.constructor | LRU.c:13-24 | an empty cache is well formed |
| LruHeap.LRUCache.RemoveFromCache | LRU.c:59-78 | the links form the same list without the node |
| LruHeap.LRUCache.AddToCache | LRU.c:26-41 | the links form the list followed by the node |
| LruHeap.LRUCache.Lookup | LRU.c:82-100 | walking the recency links from the slot's anchor finds the model's visible entry, or ends behind the last node |
| LruHeap.LRUCache.MoveToEnd | LRU.c:90-94 | the node becomes the most recently used one; all others keep their order |
| LruHeap.LRUCache.Get | LRU.c:80-102 | result and new state are those of the model get; the linked list stays well formed and size is its length |
| LruHeap.LRUCache.EvictLRUNode | LRU.c:42-57 | with two nodes or more the first node goes, its slot is emptied, all other slots stay |
| LruHeap.LRUCache.Put | LRU.c:111-148 | the new state is that of the model put; the linked list stays well formed within the capacity |
| LruHeap.LRUCache.RemoveFromHashMap | LRU.c:163-180 | what relinking a node that already left does to its neighbours and its slot |
| LruHeap.LRUCache.RemoveForDelete | LRU.c:181-204 | a miss changes nothing; a hit unlinks exactly that node, and the hash slots stay in order if and only if the node is not its slot's anchor, or is the head followed by nothing or by a node of its slot; otherwise the slot goes on pointing at the removed node, or at the new head |
| NamingServer.PutPairs | LRU.c:111-148 | a put caches no list for any path but the one it was given |
| NamingServer.CoherentMonotone | Naming_server.c:336-346 | when the trie only learns and the cache only forgets, the cache stays in step |
| NamingServer.FromTrie | Naming_server.c:253-256 | a fresh list with the trie's ports in search order |
| NamingServer.Locate | Naming_server.c:248-260 | the cached list if there is one, else the trie's; it never names a server the trie does not name, and the cache is the one after a get |
| NamingServer.Settle | Naming_server.c:616-617 | the size -1 becomes 0 in a list that may be shared, and the cache stays in step |
| NamingServer.Read | Naming_server.c:594-643 | the server is the first known one of the list found and is named by the trie; a path that was found is cached again; trie and cache stay in step, and new objects only join them |
| NamingServer.Write | Naming_server.c:723-769 | as for read, but a list that came from the trie is cached even when it is empty |
| NamingServer.Created | Naming_server.c:336-366 | after YES the component prefixes are in the trie, the list is filled in place, and it is cached for the first component of the path; trie and cache stay in step |
| NamingServer.Unanswered | Naming_server.c:310-366 | after a closed connection the list is cached for the whole path without an insertion; the cache stays in step if and only if the trie already names the server for it |
| NamingServer.ButDecides | Naming_server.c:363-366 | with every other entry located, the blindly filled list alone decides whether the cache is in step |
| NamingServer.Create | Naming_server.c:239-370 | refused exactly when a server is known for the path; the new trie and the new cache for every kind of answer |
| NamingServer.RegisterSynced | Naming_server.c:2019-2022 | a registration keeps trie and cache in step and does not change the cache; new nodes only join the trie |
| NamingServer.KnownIsNamed | Naming_server.c:248-260 | in step, every server a search finds, cached or not, is named by the trie for the path |
| NamingServer.StartServer | Naming_server.c:152-155 | the empty trie and the empty cache for ten paths are in step |
| NamingRuns.ServeOne | Naming_server.c:1491-1533 | one create, read, write, info or registration keeps trie and cache in step; trie, cache, and the servers that each cached list names are afterwards exactly what the request and the moment before say |
| NamingRuns.Serve | Naming_server.c:1491-1533 | so does every run of them in which storage servers answer every create; the log says for each request what trie, cache and cached lists were before and after it, what its search found, that the trie named all of it for the path, and which server was picked |
| NamingRuns.Session | Naming_server.c:152-155 | the same for every run from the start of the server, with nothing stored and nothing cached |
| NamingRuns.PickedIsNamed | Naming_server.c:594-769 | so the server picked for a read, write or info is one that the trie named for the path at that moment |
| NamingServer.CachedIsNamed | Naming_server.c:248-260 | at the end every cached list, visible or hidden, only names servers that the trie names for its path |
| NamingServer.InStepNeverMissing | Naming_server.c:501-554 | while trie and cache are in step, deletefile with a known server meets no missing node |
| NamingFailures.SilentCreate | Naming_server.c:310-366 | a first create that gets no answer leaves the cache naming a server for a path of which the trie knows nothing |
| NamingFailures.MissingNode | Naming_server.c:501-554 | for all names p and n: with p registered and p+n created, deletefile of p and then of p+n meets a missing node |
| NamingFailures.StaleAfterDelete | Naming_server.c:501-570 | between the two the cache goes on naming a server for p+n, which the trie has lost, so they are out of step |
| NamingFailures.MissingDirectory | Naming_server.c:434-570 | for all names p, n and r: create p, create p+n/r, deletefile p, deletedir p+n meets a missing node, with any cache that does not find p |
| NamingFailures.RemovedStaysFound | LRU.c:181-204 | two puts in different slots and a removal of the second: its slot points at a node of the path that is not in the list |
| CText.ScanDigitsReads | Tries.c:473-473 | scanning printed digits gives their value and the rest |
| CText.DecNatFacts | Tries.c:402-402 | the decimal text of a number denotes it |
| CText.DigitsAre | Tries.c:402-402 | the digits are those from 0 to 9, the highest first |
| CText.ScanIntReads | Tries.c:473-473 | a number printed with a leading space is scanned back, sign included |
| TrieText.ThreePorts | Tries.c:238-258 | up to three ports are appended in order |
| TrieText.PortsKeptExactly | Tries.c:238-258 | the appended ports are all kept if and only if the list ends with at most three, or nothing was appended |
| TrieText.PortsThatRemain | Tries.c:238-258 | of more than three ports read the first two and the last remain |
| TrieText.LineText | Tries.c:396-405 | a line is the word, the literal " Ports:", every port behind a blank, and a newline |
| TrieText.PortsReadBack | Tries.c:473-478 | the reader takes exactly the ports of the line and stops before the next word |
| TrieText.HeaderReadBack | Tries.c:457-457 | the word of a written line is read back and the literal is consumed |
| TrieText.LineReadBack | Tries.c:457-483 | reading a written line counts the word's path, appends its ports and leaves the rest of the file |
| TrieText.FileReadBack | Tries.c:457-483 | reading the written lines of readable words, the first of which may start like a number, is reading them one after the other |
| TrieText.ExtendingCounts | Tries.c:459-471 | for distinct words the count a node gathers is the number of words at or below it |
| TrieText.SubtreeIs | Tries.c:387-421 | the writer's order holds exactly the marked words, each once, in strictly increasing order |
| TrieText.SaveLoadRoundTrip | Tries.c:387-489 | the reloaded trie marks the same words, links exactly their prefixes, counts at each node the marked words at or below it, and holds their ports in order, of which further ones than three replace the third |
| TrieText.LoadedIsCarried | Tries.c:457-457 | whatever a file holds, every word it marks is not empty and has no white space |
| TrieText.SaveLoadExactly | Tries.c:387-489 | when no marked word but the least starts with a digit or sign, all marks and ports come back if and only if every marked word is readable and has one to three ports |
| TrieTextExact.NumberIsLost | Tries.c:473-478 | if a marked word other than the least starts with a digit or sign, the longest such word is not marked in the reloaded trie |
| TrieTextExact.TwoNames | Tries.c:457-478 | so of two words stored by one server the later one is lost when it starts with a digit or sign |
| TrieTextExact.SaveLoadIff | Tries.c:387-489 | for a trie whose marked words have ports, all marks and ports come back if and only if every marked word is readable, none but the least starts with a digit or sign, and none has more than three ports |
| TrieTextExact.ReloadedCounts | Tries.c:442-489 | a sound trie whose marked words are readable, none but the least starting with a digit or sign, is sound again when reloaded, with one outstanding copy of each marked word, so that insertions and deletions can go on |
| TrieTextExact.BareWords | Tries.c:457-483 | a file of words without the literal is read, too: each is linked and counted, none is marked |
| TrieText.FourServers | Tries.c:238-258 | one word stored by four servers comes back without its third port |
| TrieFiles.PrintLine | Tries.c:398-405 | one line is appended: the word, the literal and the ports |
| TrieFiles.SaveTrieContents | Tries.c:387-421 | the recursive writer appends the lines of the subtree in order |
| TrieFiles.SaveTrieToFile | Tries.c:423-440 | the file is the text of the whole trie |
| TrieFiles.AppendPort | Tries.c:475-477 | the node is marked and the port goes to the back, or replaces the third |
| TrieFiles.LoadPortList | Tries.c:473-478 | the ports loop is the model's reading of a port list |
| TrieFiles.LoadPath | Tries.c:459-471 | the loop counts and links the word's path, the last node included |
| TrieFiles.LoadTrieContents | Tries.c:442-489 | a fresh well-formed trie that is the model's reading of the file |
| Placement.Choose | Naming_server.c:1706-1730 | the branches give the lower fellow first, each with the folder that its order in the group asks for |
| Placement.ReplicasInGroup | Naming_server.c:1706-1730 | both replicas lie in the primary's group on two different other servers, in folder 1 or 2 |
| Placement.OnePrimary | Naming_server.c:1706-1730 | a folder of a server holds the copy of exactly one primary, which is another server of its group |
| Placement.LowerFirst | Naming_server.c:1706-1730 | each server keeps its lower fellow's copy in folder 1 and the higher one's in folder 2, and the replica on the lower fellow comes first |
| Placement.ReadFrom | Naming_server.c:649-691 | a failed-over read picks a replica of the requested primary that is up, the first if possible, and falls through to the primary if and only if the whole group is down |
| Redundancy.CallBalanced | Naming_server.c:1494-1531 | one semaphore call of a thread changes the semaphore by what it changes in the books |
| Redundancy.Conservation | Naming_server.c:1739-1742 | in every reachable state of any number of threads a semaphore is not negative, and its value and its holders add up to one, plus one unit of the red lock for each command that posted it without having taken it |
| Redundancy.Exclusive | Naming_server.c:1607-1612 | nobody else holds a server, client or master lock that a thread holds |
| Redundancy.CopyIsExclusive | Naming_server.c:1739-1999 | while a round copies, it alone holds each of the three servers of its group, and their semaphores are zero |
| SemaphoreCalls.CopyKeepsOut | Naming_server.c:1739-1999 | while a round copies, no command about to talk to a server of its group, no disconnect handler and no registration of it, and no other round of the group can make its next call |
| SemaphoreCalls.CopyIsAlone | Naming_server.c:1739-1999 | and none of them is with a server of the group already |
| SemaphoreCalls.CommandAlone | Naming_server.c:1494-1531 | run alone a command takes its client's lock, the red lock if it is free, takes and returns each server it talks to in order, posts the red lock once in any case and returns its client's lock, and makes no other call |
| SemaphoreCalls.RoundAlone | Naming_server.c:1739-1999 | run alone a round takes the red lock, its two replicas' servers and its own, and returns its own, the replicas' and the red lock |
| SemaphoreCalls.HandlerAlone | Naming_server.c:1607-1612 | run alone a disconnect handler takes and returns its server |
| SemaphoreCalls.RegistrarAlone | Naming_server.c:2009-2053 | run alone a registration takes the master lock and its server and returns them in the opposite order |
| Redundancy.ActiveRounds | Naming_server.c:1739-1999 | there is at most one active round more than stray posts of the red lock |
| Redundancy.RoundStartsExactly | Naming_server.c:1739-1739 | a round can take the red lock at once if and only if there are at least as many stray posts as holders of it |
| Redundancy.NoStrayPosts | Naming_server.c:1495-1530 | if every sem_trywait made so far succeeded there is no stray post |
| Redundancy.OneRound | Naming_server.c:1739-1999 | then rounds exclude each other and the command that took the red lock |
| Redundancy.WaitsDown | Naming_server.c:1740-1742 | without stray posts, whoever holds what a thread waits for ranks below it |
| Redundancy.CrossingWaits | Naming_server.c:1740-1742 | two rounds of one group cross when one is that of its first server and one has taken two server locks and the other one; then they wait for each other |
| Redundancy.RingIsMidway | Naming_server.c:1740-1742 | every member of a circular wait is a round that has taken one or two of its server locks |
| Redundancy.EdgesAreMutual | Naming_server.c:1740-1742 | of three such rounds that wait in a row the third is the first |
| Redundancy.CircularWaitExactly | Naming_server.c:1740-1742 | with any number of stray posts: a reachable state holds a circular wait, of any length, if and only if two rounds cross in it |
| Redundancy.CrossingStays | Naming_server.c:1740-1742 | two rounds that cross still cross after every step |
| Redundancy.NoCircularWait | Naming_server.c:1740-1742 | so without stray posts no circular wait of any length is reachable, although rounds, handlers and registrations take the locks in different orders |
| Redundancy.SomeoneMoves | Naming_server.c:2009-2053 | as long as no two rounds cross, whenever a thread has a call left some thread can move: it, or one that it waits for directly or through others |
| Redundancy.StrayPost | Naming_server.c:1495-1530 | a stray post is reachable: a command that fails to take the red lock during a round posts it |
| Redundancy.StrayPostDeadlocks | Naming_server.c:1495-1530 | one stray post is enough for two rounds of one group to be active and to wait for each other |
| ChunkedCopy.ToFloatIsNearest | Naming_server.c:1083-1083 | the modelled conversion gives a float, and no float is nearer to the size |
| ChunkedCopy.TieToEven | Naming_server.c:1083-1083 | half way between two floats it gives the one with the even significand |
| ChunkedCopy.ExpectedIs | Naming_server.c:1083-1083 | the receiver's chunk count is the sender's if and only if the size is a multiple of 8192 or exceeds one by more than half a float gap; otherwise it is one less |
| ChunkedCopy.SmallFilesAgree | Naming_server.c:1083-1083 | up to 16777216 bytes the counts agree |
| ChunkedCopy.FirstDisagreement | Naming_server.c:1083-1083 | at 16777217 bytes they do not |
| ChunkedCopy.SendFile | Storage_server.c:298-314 | the chunk loop sends the file followed by zeros up to a whole chunk |
| ChunkedCopy.ReceiveChunks | Storage_server.c:342-360 | the receiving loop takes exactly that many chunks and leaves the rest unread |
| ChunkedCopy.PaddedIs | Storage_server.c:302-313 | the padding is zeros, keeps the file in front, and is empty exactly for whole chunks |
| ChunkedCopy.TakenIs | Naming_server.c:1081-1095 | the naming server's copy is the padded file exactly when the counts agree, and otherwise the file without its last, partial chunk |
| ChunkedCopy.CopyFile | Naming_server.c:1058-1127 | through the three loops nothing is invented: copy and unread bytes together are the padded file; when the counts differ the last chunk stays unread in the connection |
| ChunkedCopy.SmallFilesCopied | Naming_server.c:1081-1095 | for up to 16777216 bytes the copy is the whole padded file |

## Left out

- Sockets, threads, signals, logging, directories and processes: messages and files are byte sequences, answers are parameters; failed and short receives are not modelled.
- The cells of port and result lists: a list is the sequence of its values with its size field; the node links of `LLNode` are not modelled.
- Machine integers: counts, sizes and ports are unbounded, except for the float conversion of a file size.
- Buffers of 256 bytes for paths in the create, copydir, save and load loops: overlong paths are excluded or not bounded; the 512-byte buffers of nextentry and the collecting walk are modelled with the condition that words fit.
- The missing `return` in `init_LL_Trie` and `init_LL_Trie_Head` (Tries.c:3-15): modelled as returning the new node.
- Whole runs of trie and cache together with deletes in them: each delete says exactly when it keeps both in step (`NamingDeletes`), but the runs of `NamingRuns` have none, and those of `NamespaceRuns` and `LruModel` are of the trie or the cache alone.
- LruHeap.LRUCache.RemoveForDelete: for an entry that is not removable list, links and all slots are described, not what later calls do with the damaged slot; runs of the cache remove removable entries only, and `NamingDeletes.Forget` asks first (`LruHeap.LRUCache.CanRemove`) and leaves the cache alone for the rest of a command once a slot is damaged.
- NamingServer.Write: stands for `Infofunctionality` too, which has the same text up to the choice of the server.
- ChunkedCopy.CopyFile: assumes whole-chunk receives and no `temp.txt` left over from an earlier command; a missing file and the directory answer are not modelled.
- The cache entries that copyfile makes (Naming_server.c:1056-1057), and the content that copydir copies.
- Replica contents: the redundancy round's transfers are one step while the locks are held.
- Redundancy.Conservation: covers commands that post every server lock they take once; a create that is refused keeps it (Naming_server.c:318-333), a create whose receive returns 0 posts it twice (Naming_server.c:310-315 and 361), and so does the copy of a file by copydir (Naming_server.c:1413-1464); a registration that fails keeps its locks.
- Liveness: a schedule that is unfair to a thread is not excluded.
- `insertTries1`, `searchAll`, `Delete_Trie`, `printTries`, `hashtable.c`, `queue.c`, ls and message constructors: unused, or only easy members.
