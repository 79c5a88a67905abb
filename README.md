# IK Analyzer dictionary and arbitrator, modelled in Dafny

This project models the core of the IK Chinese analyzer, as packaged in the
Elasticsearch analysis-ik plugin. It covers three cooperating pieces.

- **The dictionary trie node `DictSegment`** (`dict_segment.dfy`, module
  `Segments`). This is a class with the source's own fields:
  - `nodeChar`, `nodeState` and `storeSize`;
  - a child array of capacity `ARRAY_LENGTH_LIMIT` = 3, kept sorted by
    character;
  - a child map, which takes over when a fourth child arrives; a node whose
    children are in the map keeps them there;
  - `storeSize`, the number of children. In array mode this is proved from
    the node's invariant. In map mode it is not part of the invariant.
    Instead, a new node has no children and a size of 0, and every method
    that can add a child to a node keeps `storeSize` minus the number of
    its children unchanged: `lookforSegment`, `fillSegment` at each level,
    and the public `fillSegment` and `disableSegment`.

  Each method is proved against a ghost `View`, the trie value the node
  stands for. `TrieSpec` (`trie_spec.dfy`) defines that value with `Lookup`,
  `Walk` and `Fill` and proves its properties. Lookups (`match`) fill in a
  `Hit` object. Its fields are the match and prefix bits, the offsets and the
  node reached.
- **The ambiguity arbitrator `IKArbitrator`** (`arbitrator.dfy`, module
  `Arbitrator`). A lexeme is its offset range. A lexeme path is the sequence
  of its lexemes.
  - `process` drains the ordered candidates into cross paths and outputs each
    path, resolved.
  - `judge` runs a greedy forward pass that keeps a stack of conflicts. For
    each conflict it rolls back and runs forward again, producing one
    alternative. The least alternative under the path ordering wins. That
    ordering is a parameter, required only to be a strict order.
- **The dictionary manager `Dictionary`** (`dictionary.dfy`, module
  `Dictionaries`, with `word_lists.dfy`, module `WordLists`). It holds the
  main, quantifier and stop-word tries. It covers:
  - how those tries are loaded from dictionary files, from the
    `;`-separated lists in `IKAnalyzer.cfg.xml`, and from remote word lists;
  - the critical and optional load errors;
  - `addWords` and `disableWords`;
  - the lookups;
  - the reload that swaps in new main and stop-word tries;
  - the periodic `checkExtDict` decision.

The file system, the network and the clocks are parameters:
- `read(path)` is a file's lines, or `None` when the file does not exist.
- `walk(entry)` is the list of files `walkFileTree` produces for a
  configured entry.
- `fetch(location)` is what `getRemoteWords` returns, with `None` for null.
- Timestamps are opaque integers.
- The properties are a `map<string, string>`.

## Model

| member | source | states |
|---|---|---|
| `TrieSpec.Reach` | src/main/java/org/wltea/analyzer/dic/DictSegment.java:117-161 | how many leading characters of a key the trie has nodes for; this equals the key's length exactly when the whole key has a node |
| `TrieSpec.ReachStopsAtMissing` | src/main/java/org/wltea/analyzer/dic/DictSegment.java:117-136 | the reached prefix has a node, and when the walk stops early the next character has none |
| `TrieSpec.WalkMeaning` | src/main/java/org/wltea/analyzer/dic/DictSegment.java:102-162 | a lookup that meets a missing character ends at that character's index with neither bit set; a complete lookup ends at the last index and reports the key's word and prefix status |
| `TrieSpec.LookupConcat` | src/main/java/org/wltea/analyzer/dic/DictSegment.java:139-142 | descending along `a + b` is descending along `a` and then along `b` from the node reached, which is what the recursive call does |
| `TrieSpec.LookupPrefix` | src/main/java/org/wltea/analyzer/dic/DictSegment.java:117-142 | every prefix of a key that has a node has a node too |
| `TrieSpec.RestateKeepsPaths` | src/main/java/org/wltea/analyzer/dic/DictSegment.java:205-209 | rewriting a node's state changes no path below it |
| `TrieSpec.FillKeepsRootState` | src/main/java/org/wltea/analyzer/dic/DictSegment.java:187-212 | filling a non-empty key never writes the state of the node it starts from |
| `TrieSpec.FillAtKey` | src/main/java/org/wltea/analyzer/dic/DictSegment.java:199-209 | after enabling, or disabling a present key, the key's node carries the written state and keeps all its children |
| `TrieSpec.FillAbsentDisabled` | src/main/java/org/wltea/analyzer/dic/DictSegment.java:199-200 | disabling a key that has no node leaves the trie exactly as it was |
| `TrieSpec.FillElsewhere` | src/main/java/org/wltea/analyzer/dic/DictSegment.java:199-210 | every other existing node survives a fill with its state and without losing a child |
| `TrieSpec.FillNewPaths` | src/main/java/org/wltea/analyzer/dic/DictSegment.java:236-243 | new nodes appear only when enabling and only along the key; they hold state 0, except the key's own node, which holds 1 |
| `TrieSpec.FillThenMatch` | src/main/java/org/wltea/analyzer/dic/DictSegment.java:139-170 | after enabling `w`, looking up `w` reports a match ending at its last character; the prefix bit is what it was before |
| `TrieSpec.DisableThenMatch` | src/main/java/org/wltea/analyzer/dic/DictSegment.java:146-178 | after disabling `w`, looking up `w` reports no match; the prefix bit and the end index are what they were before, so longer words stay reachable |
| `TrieSpec.DisableCreatesNoNode` | src/main/java/org/wltea/analyzer/dic/DictSegment.java:199-200 | disabling neither creates nor removes a node: every key has a node after it exactly when it had one before |
| `TrieSpec.RefillCreatesNoNode` | src/main/java/org/wltea/analyzer/dic/DictSegment.java:225-236 | filling a key that already has a node creates no node |
| `TrieSpec.FillKeepsOtherWords` | src/main/java/org/wltea/analyzer/dic/DictSegment.java:199-210 | a fill changes the word status of no key other than its own |
| `TrieSpec.WalkFlags` | src/main/java/org/wltea/analyzer/dic/DictSegment.java:146-155 | the match bit is set iff the key's node is enabled, and the prefix bit iff that node has a child |
| `TrieSpec.ContinueWalk` | src/main/java/org/wltea/analyzer/dic/Dictionary.java:392-395 | resuming one character `c` from the node reached by `w` reports the word and prefix status of `w + [c]` |
| `TrieSpec.FillAllSnoc` | src/main/java/org/wltea/analyzer/dic/Dictionary.java:231-235 | loading one more word is one more fill |
| `TrieSpec.FillAllAppend` | src/main/java/org/wltea/analyzer/dic/Dictionary.java:409-420 | loading two word lists in turn is loading their concatenation |
| `TrieSpec.BuiltWords` | src/main/java/org/wltea/analyzer/dic/Dictionary.java:227-236 | a trie built from an empty one by enabling a list of words has exactly those words |
| `TrieSpec.FillAllWords` | src/main/java/org/wltea/analyzer/dic/Dictionary.java:335-358 | after enabling (disabling) a list of words, each listed word is (is not) a word, and every other key keeps its status |
| `WordLists.TrimLeftMeaning` | src/main/java/org/wltea/analyzer/dic/Dictionary.java:232 | the left trim is a suffix of the input; it drops only characters at or below the space, and it does not start with one |
| `WordLists.TrimRightMeaning` | src/main/java/org/wltea/analyzer/dic/Dictionary.java:232 | the right trim is a prefix of the input; it drops only characters at or below the space, and it does not end with one |
| `WordLists.Trim` | src/main/java/org/wltea/analyzer/dic/Dictionary.java:232 | `trim` is no longer than its input and leaves no space at either end |
| `WordLists.TrimMeaning` | src/main/java/org/wltea/analyzer/dic/Dictionary.java:232 | `trim` is a slice of the input with only spaces outside it |
| `WordLists.TrimOfTrimmed` | src/main/java/org/wltea/analyzer/dic/Dictionary.java:232 | trimming a string without a space at either end leaves it unchanged |
| `WordLists.TrimIdempotent` | src/main/java/org/wltea/analyzer/dic/Dictionary.java:232 | trimming twice is trimming once |
| `WordLists.TrimEmpty` | src/main/java/org/wltea/analyzer/dic/Dictionary.java:233 | a line trims to empty iff it is all characters at or below the space |
| `WordLists.TrimInside` | src/main/java/org/wltea/analyzer/dic/Dictionary.java:253 | trimming introduces no character |
| `WordLists.LowerMeaning` | src/main/java/org/wltea/analyzer/dic/Dictionary.java:455 | lower-casing is idempotent and keeps a trimmed word trimmed, so trimming it again changes nothing |
| `WordLists.Lower` | src/main/java/org/wltea/analyzer/dic/Dictionary.java:455 | lower-casing keeps the length and leaves no capital |
| `WordLists.LowerCharMeaning` | src/main/java/org/wltea/analyzer/dic/Dictionary.java:455 | a lower-cased character is no capital, lower-casing it again changes nothing, and it is a space iff the original was |
| `WordLists.StripBom` | src/main/java/org/wltea/analyzer/dic/Dictionary.java:229-230 | a line starting with U+FEFF loses exactly that character; any other line is unchanged |
| `WordLists.Debom` | src/main/java/org/wltea/analyzer/dic/Dictionary.java:227-231 | only the first line of a file can lose a byte-order mark |
| `WordLists.RetainedStep` | src/main/java/org/wltea/analyzer/dic/Dictionary.java:251-257 | the entries kept from one more piece are those kept before plus what that piece keeps |
| `WordLists.Retained` | src/main/java/org/wltea/analyzer/dic/Dictionary.java:231-235 | at most one item is kept of each line or entry |
| `WordLists.RetainedAppend` | src/main/java/org/wltea/analyzer/dic/Dictionary.java:251-257 | selecting entries works piece by piece, so selecting from a concatenation concatenates the selections |
| `WordLists.RetainedShape` | src/main/java/org/wltea/analyzer/dic/Dictionary.java:252-253 | every kept entry is non-blank, and trimmed when local paths are selected |
| `WordLists.RetainedAvoids` | src/main/java/org/wltea/analyzer/dic/Dictionary.java:250-253 | a character absent from all pieces is absent from every kept entry |
| `WordLists.RetainedOne` | src/main/java/org/wltea/analyzer/dic/Dictionary.java:252-253 | a single piece keeps exactly what the blank test lets through |
| `WordLists.RetainedKeepsClean` | src/main/java/org/wltea/analyzer/dic/Dictionary.java:251-256 | pieces that are already trimmed and non-empty are all kept, unchanged and in order |
| `WordLists.FileWordsSplit` | src/main/java/org/wltea/analyzer/dic/Dictionary.java:227-236 | a file's words are those of its first line with the mark stripped, followed by those of the other lines |
| `WordLists.FileWords` | src/main/java/org/wltea/analyzer/dic/Dictionary.java:227-236 | at most one word per line, and every word loaded from a file is non-empty and trimmed |
| `WordLists.SplitAll` | src/main/java/org/wltea/analyzer/dic/Dictionary.java:250 | splitting yields at least one piece, and no piece holds the separator |
| `WordLists.JoinSplit` | src/main/java/org/wltea/analyzer/dic/Dictionary.java:250 | joining the pieces with the separator gives back the input |
| `WordLists.SplitFirst` | src/main/java/org/wltea/analyzer/dic/Dictionary.java:250 | the text before the first separator is the first piece |
| `WordLists.SplitJoin` | src/main/java/org/wltea/analyzer/dic/Dictionary.java:250 | splitting a join of separator-free pieces gives back the pieces |
| `WordLists.DropTrailingEmpty` | src/main/java/org/wltea/analyzer/dic/Dictionary.java:250 | `String.split` drops exactly the trailing empty pieces: the result is a prefix, everything dropped is empty, and the result does not end with an empty piece |
| `WordLists.JavaSplit` | src/main/java/org/wltea/analyzer/dic/Dictionary.java:250 | no piece holds the separator; for a non-empty input the pieces are those between separators, up to the last non-empty one, and every piece dropped is empty |
| `WordLists.JavaSplitRetained` | src/main/java/org/wltea/analyzer/dic/Dictionary.java:250-252 | the trailing empties that `String.split` drops would have been skipped anyway |
| `WordLists.EmptiesRetainNothing` | src/main/java/org/wltea/analyzer/dic/Dictionary.java:252 | empty pieces are never kept |
| `WordLists.ConfigEntries` | src/main/java/org/wltea/analyzer/dic/Dictionary.java:245-309 | an absent property lists nothing; every configured entry is non-blank and holds no `;`; local entries are trimmed, remote ones are kept as written |
| `WordLists.ConfigEntriesJoin` | src/main/java/org/wltea/analyzer/dic/Dictionary.java:245-260 | a `;`-joined list of trimmed, non-empty names configures exactly those names, in order |
| `WordLists.RemoteWords` | src/main/java/org/wltea/analyzer/dic/Dictionary.java:451-456 | at most one word per entry, and every word taken from a remote list is non-empty, trimmed and lower-case |
| `WordLists.PresentWords` | src/main/java/org/wltea/analyzer/dic/Dictionary.java:337-341 | at most one key per word, every key has no space at either end, and when no present word is blank every key is non-empty |
| `Segments.Hit.constructor` | src/main/java/org/wltea/analyzer/dic/DictSegment.java:105-107 | a new hit is unmatched, with no recorded node |
| `Segments.Hit.SetUnmatch` | src/main/java/org/wltea/analyzer/dic/DictSegment.java:110-113 | a reused hit loses both bits but keeps its offsets and its recorded node |
| `Segments.BinarySearch` | src/main/java/org/wltea/analyzer/dic/DictSegment.java:128-131 | `Arrays.binarySearch` over the used slots: the index of the node with the key's character, or `-(insertion point) - 1`; every slot before the insertion point is smaller and every slot after it larger |
| `Segments.SortSegments` | src/main/java/org/wltea/analyzer/dic/DictSegment.java:240-243 | sorting after appending one node gives the old sorted slots with the new node inserted at one place, sorted, and the other slots unchanged |
| `Segments.ListsSearch` | src/main/java/org/wltea/analyzer/dic/DictSegment.java:230-233 | the search result agrees with the children: a found index holds the child for that character, and "not found" means there is none |
| `Segments.InsertedLists` | src/main/java/org/wltea/analyzer/dic/DictSegment.java:236-243 | inserting a node at its sorted place lists the children plus that node |
| `Segments.InsertSorted` | src/main/java/org/wltea/analyzer/dic/DictSegment.java:236-243 | the array insert adds exactly the new child, keeps the array sorted, and keeps one slot per child |
| `Segments.ListedWhole` | src/main/java/org/wltea/analyzer/dic/DictSegment.java:309-313 | when the slots past the used ones are null, the whole array holds exactly the children |
| `Segments.Migrate` | src/main/java/org/wltea/analyzer/dic/DictSegment.java:307-314 | migration puts every array child into the map, keyed by its character |
| `Segments.FillStep` | src/main/java/org/wltea/analyzer/dic/DictSegment.java:199-210 | one step of the recursive fill, looking up or creating the child and filling below it, builds the same trie as `Fill` |
| `Segments.DictSegment.constructor` | src/main/java/org/wltea/analyzer/dic/DictSegment.java:56-61 | a new node holds its character, state 0 and no children |
| `Segments.DictSegment.HasNextNode` | src/main/java/org/wltea/analyzer/dic/DictSegment.java:70-72 | `storeSize > 0` exactly when the node has a child |
| `Segments.DictSegment.CompareTo` | src/main/java/org/wltea/analyzer/dic/DictSegment.java:321-324 | nodes compare as their characters do |
| `Segments.DictSegment.GetChildrenArray` | src/main/java/org/wltea/analyzer/dic/DictSegment.java:281-288 | it returns the existing array, or a new empty one of length 3 that becomes the node's array |
| `Segments.DictSegment.AddToArray` | src/main/java/org/wltea/analyzer/dic/DictSegment.java:238-243 | below the capacity, the new child goes into the sorted array and the map stays absent |
| `Segments.DictSegment.MigrateFull` | src/main/java/org/wltea/analyzer/dic/DictSegment.java:248-250 | migrating a full array into a new map yields exactly the children |
| `Segments.DictSegment.MoveToMap` | src/main/java/org/wltea/analyzer/dic/DictSegment.java:245-257 | the fourth child moves every child into the map, adds the new one, and drops the array |
| `Segments.DictSegment.AddToMap` | src/main/java/org/wltea/analyzer/dic/DictSegment.java:264-270 | in map storage a new child is added to the map, and the array stays absent |
| `Segments.DictSegment.LookforSegment` | src/main/java/org/wltea/analyzer/dic/DictSegment.java:220-274 | it returns an existing child unchanged; it creates a child only when `create == 1` and there is none, and otherwise returns null; the node's state never changes; `storeSize` grows exactly when the number of children does; array storage stays below the capacity, the fourth child moves every child into the map, and a node in map storage stays in map storage |
| `Segments.DictSegment.LookInArray` | src/main/java/org/wltea/analyzer/dic/DictSegment.java:225-258 | the array branch of the lookup, with the same outcome; adding a fourth child leaves no array and every child in the map |
| `Segments.DictSegment.SearchArray` | src/main/java/org/wltea/analyzer/dic/DictSegment.java:227-233 | the array search finds the child for the character iff there is one |
| `Segments.DictSegment.InsertIntoArray` | src/main/java/org/wltea/analyzer/dic/DictSegment.java:236-257 | a created child is added to the array, or to the map once the array is full, and `storeSize` grows by one; the fourth child leaves every child in the map |
| `Segments.DictSegment.LookInMap` | src/main/java/org/wltea/analyzer/dic/DictSegment.java:259-271 | the map branch of the lookup, with the same outcome; the children stay in the map and the array stays absent |
| `Segments.DictSegment.Counted` | src/main/java/org/wltea/analyzer/dic/DictSegment.java:50-51 | in array storage `storeSize` is the number of children |
| `Segments.ListsCount` | src/main/java/org/wltea/analyzer/dic/DictSegment.java:238-243 | a sorted child array with `n` used slots holding exactly the children holds `n` children |
| `Segments.HoldsCount` | src/main/java/org/wltea/analyzer/dic/DictSegment.java:238-243 | a strictly ascending sequence of nodes that lists exactly the children has as many elements as there are children |
| `Segments.DictSegment.FindChild` | src/main/java/org/wltea/analyzer/dic/DictSegment.java:121-136 | the read-only search of `match` finds a child iff the trie has one for that character |
| `Segments.DictSegment.SetState` | src/main/java/org/wltea/analyzer/dic/DictSegment.java:208 | writing the state changes only the node's own flag |
| `Segments.DictSegment.FillSegmentAt` | src/main/java/org/wltea/analyzer/dic/DictSegment.java:187-212 | the recursive fill turns the node's trie into `Fill` of it with the key slice and the state; `storeSize` minus the number of children is unchanged |
| `Segments.DictSegment.FillFound` | src/main/java/org/wltea/analyzer/dic/DictSegment.java:200-210 | once the child for the first character is found or created, recursing into it or setting its state at the last character yields `Fill` of the trie before the lookup |
| `Segments.DictSegment.FillChild` | src/main/java/org/wltea/analyzer/dic/DictSegment.java:202-204 | filling below a child replaces that child's subtrie by its fill and changes nothing else; by its frame this node's own size and children are untouched |
| `Segments.DictSegment.FillBelow` | src/main/java/org/wltea/analyzer/dic/DictSegment.java:202-204 | the recursive fill of the rest of the word into a child replaces the child's subtrie by its fill |
| `Segments.DictSegment.SetChildState` | src/main/java/org/wltea/analyzer/dic/DictSegment.java:205-209 | at the last character only that child's state changes; by its frame this node's own size and children are untouched |
| `Segments.DictSegment.StartHit` | src/main/java/org/wltea/analyzer/dic/DictSegment.java:105-115 | a lookup starts from a new hit at `begin`, or from the reused hit reset to unmatched with its `begin`; either way `end` is the current position |
| `Segments.DictSegment.MarkLast` | src/main/java/org/wltea/analyzer/dic/DictSegment.java:143-156 | at the last character the match bit is set when the node is enabled, and the prefix bit plus the recorded node when it has children |
| `Segments.DictSegment.Match` | src/main/java/org/wltea/analyzer/dic/DictSegment.java:102-162 | the hit's end and bits are the walk of the key slice; a prefix hit records a node that stands for the slice's subtrie; a reused hit keeps its `begin` |
| `Segments.DictSegment.MatchFound` | src/main/java/org/wltea/analyzer/dic/DictSegment.java:139-161 | the recursion or last-character step, once the child is found, completes the same walk |
| `Segments.DictSegment.MatchWord` | src/main/java/org/wltea/analyzer/dic/DictSegment.java:79-81 | matching a whole key gives a new hit at 0 with the key's walk |
| `Segments.DictSegment.MatchSpan` | src/main/java/org/wltea/analyzer/dic/DictSegment.java:90-92 | matching a span gives a new hit at `begin` with the span's walk |
| `Segments.DictSegment.FillSegment` | src/main/java/org/wltea/analyzer/dic/DictSegment.java:168-170 | the trie becomes `Fill(old, key, 1)`, so the key becomes a word and nothing else changes; `storeSize` minus the number of children is unchanged |
| `Segments.DictSegment.DisableSegment` | src/main/java/org/wltea/analyzer/dic/DictSegment.java:176-178 | the trie becomes `Fill(old, key, 0)`, so the key stops being a word and no node is created; `storeSize` minus the number of children is unchanged |
| `Arbitrator.PathEnd` | src/main/java/org/wltea/analyzer/core/IKArbitrator.java:145 | a path's span ends no earlier than its first or its last lexeme |
| `Arbitrator.PathEndIsMaximum` | src/main/java/org/wltea/analyzer/core/IKArbitrator.java:145 | a path's span ends where its furthest lexeme ends: no lexeme ends later, and one ends there |
| `Arbitrator.CheckCross` | src/main/java/org/wltea/analyzer/core/IKArbitrator.java:145 | only a non-empty path is crossed; for valid lexemes crossing is intersecting the path's span as half-open intervals |
| `Arbitrator.AddCrossLexeme` | src/main/java/org/wltea/analyzer/core/IKArbitrator.java:50-66 | the lexeme is taken iff the path is empty or the lexeme crosses it; a taken lexeme is appended, once, and keeps the path in candidate order; a refused one leaves the path unchanged |
| `Arbitrator.AddNotCrossLexeme` | src/main/java/org/wltea/analyzer/core/IKArbitrator.java:130 | the lexeme is taken iff it does not cross the path; a refused lexeme leaves the path unchanged |
| `Arbitrator.AddNotCrossCounts` | src/main/java/org/wltea/analyzer/core/IKArbitrator.java:130 | a taken lexeme is added once, and no lexeme is lost |
| `Arbitrator.AddNotCrossFrom` | src/main/java/org/wltea/analyzer/core/IKArbitrator.java:130 | the path afterwards holds only its lexemes and the offered one |
| `Arbitrator.AddNotCrossChain` | src/main/java/org/wltea/analyzer/core/IKArbitrator.java:130 | adding a non-crossing lexeme keeps a path free of overlaps |
| `Arbitrator.RemoveTail` | src/main/java/org/wltea/analyzer/core/IKArbitrator.java:146 | exactly the last lexeme is removed, and an empty path stays empty |
| `Arbitrator.ChainEnd` | src/main/java/org/wltea/analyzer/core/IKArbitrator.java:130 | a path without overlaps ends where its last lexeme ends |
| `Arbitrator.ChainDisjoint` | src/main/java/org/wltea/analyzer/core/IKArbitrator.java:130 | no two lexemes of a path without overlaps overlap |
| `Arbitrator.Back` | src/main/java/org/wltea/analyzer/core/IKArbitrator.java:144-149 | the rollback is the longest prefix of the option that `l` does not cross: every longer prefix is crossed |
| `Arbitrator.BackPath` | src/main/java/org/wltea/analyzer/core/IKArbitrator.java:144-149 | the loop removes tail lexemes until the option no longer crosses `l`, and it ends with `Back` |
| `Arbitrator.BackKeepsChain` | src/main/java/org/wltea/analyzer/core/IKArbitrator.java:109 | rolling back keeps a path free of overlaps and only drops lexemes |
| `Arbitrator.Forward` | src/main/java/org/wltea/analyzer/core/IKArbitrator.java:124-137 | every conflict pushed is a cell of the pass |
| `Arbitrator.ForwardPath` | src/main/java/org/wltea/analyzer/core/IKArbitrator.java:124-137 | the loop yields the stack and option of `Forward` |
| `Arbitrator.ForwardAccounts` | src/main/java/org/wltea/analyzer/core/IKArbitrator.java:129-135 | every visited lexeme ends up either in the option or on the stack, never both and never lost |
| `Arbitrator.ForwardTakes` | src/main/java/org/wltea/analyzer/core/IKArbitrator.java:130 | a cell the option takes is passed on inside the option |
| `Arbitrator.ForwardRefuses` | src/main/java/org/wltea/analyzer/core/IKArbitrator.java:130-133 | a cell the option refuses is pushed and the option goes on unchanged |
| `Arbitrator.ForwardKeepsChain` | src/main/java/org/wltea/analyzer/core/IKArbitrator.java:129-135 | a forward pass keeps a path free of overlaps, built from the option's and the cells' lexemes |
| `Arbitrator.ChainTakesNext` | src/main/java/org/wltea/analyzer/core/IKArbitrator.java:130 | the next lexeme of a path without overlaps goes to the tail of the lexemes before it |
| `Arbitrator.ForwardOverChain` | src/main/java/org/wltea/analyzer/core/IKArbitrator.java:124-137 | over a path without overlaps the forward pass takes every lexeme and pushes nothing |
| `Arbitrator.Rollouts` | src/main/java/org/wltea/analyzer/core/IKArbitrator.java:106-113 | one alternative per conflict on the stack |
| `Arbitrator.Least` | src/main/java/org/wltea/analyzer/core/IKArbitrator.java:116 | the path kept is one of those recorded |
| `Arbitrator.LeastIsMinimal` | src/main/java/org/wltea/analyzer/core/IKArbitrator.java:116 | under a strict order no recorded path is less than the path kept |
| `Arbitrator.Rollout` | src/main/java/org/wltea/analyzer/core/IKArbitrator.java:107-112 | one turn of the loop: roll back for the popped lexeme, then go forward from its cell |
| `Arbitrator.Judge` | src/main/java/org/wltea/analyzer/core/IKArbitrator.java:92-117 | judge returns the least of the recorded alternatives, which are the first pass and one rollout per conflict it pushed |
| `Arbitrator.RolloutsPop` | src/main/java/org/wltea/analyzer/core/IKArbitrator.java:106-113 | popping the top conflict records that rollout, then those of the rest of the stack, from the new option |
| `Arbitrator.Options` | src/main/java/org/wltea/analyzer/core/IKArbitrator.java:99-113 | judge records 1 + (the number of conflicts of the first pass) alternatives, because the later stacks are discarded |
| `Arbitrator.RolloutsAreChains` | src/main/java/org/wltea/analyzer/core/IKArbitrator.java:106-113 | every rollout is free of overlaps and uses only the cross path's lexemes |
| `Arbitrator.OptionsAreChains` | src/main/java/org/wltea/analyzer/core/IKArbitrator.java:99-113 | every recorded alternative is free of overlaps and uses only the cross path's lexemes |
| `Arbitrator.JudgeResult` | src/main/java/org/wltea/analyzer/core/IKArbitrator.java:92-117 | the result is a recorded alternative, free of overlaps, that no recorded alternative beats |
| `Arbitrator.JudgeChain` | src/main/java/org/wltea/analyzer/core/IKArbitrator.java:99-116 | a cross path without overlaps is its own only alternative, so judge returns it |
| `Arbitrator.Gather` | src/main/java/org/wltea/analyzer/core/IKArbitrator.java:49-69 | the open cross path is empty iff no candidate was drawn, and it ends with the last one drawn |
| `Arbitrator.CrossPaths` | src/main/java/org/wltea/analyzer/core/IKArbitrator.java:45-83 | there is always a last cross path; it is empty iff there are no candidates, and otherwise it ends with the last candidate |
| `Arbitrator.Resolve` | src/main/java/org/wltea/analyzer/core/IKArbitrator.java:52-61 | a path with one lexeme, or any path outside smart mode, is output unchanged; otherwise the output is one of the alternatives judge records |
| `Arbitrator.GatherStep` | src/main/java/org/wltea/analyzer/core/IKArbitrator.java:50-67 | a new candidate joins the open cross path when it crosses it, and otherwise closes it and opens a new one holding only the candidate |
| `Arbitrator.ResolveAll` | src/main/java/org/wltea/analyzer/core/IKArbitrator.java:52-62 | one output path per cross path, each resolved on its own |
| `Arbitrator.Emit` | src/main/java/org/wltea/analyzer/core/IKArbitrator.java:73-83 | a closed cross path is output unchanged when it has one lexeme or smart mode is off, and judged otherwise |
| `Arbitrator.Process` | src/main/java/org/wltea/analyzer/core/IKArbitrator.java:44-84 | the output is every cross path of the candidates, the last one included, resolved and in order |
| `Arbitrator.CrossPathsPartition` | src/main/java/org/wltea/analyzer/core/IKArbitrator.java:45-69 | the cross paths, concatenated, are the candidates: each one lands in exactly one cross path, in poll order |
| `Arbitrator.CrossPathsLinked` | src/main/java/org/wltea/analyzer/core/IKArbitrator.java:50 | within a cross path each lexeme crosses the span of the lexemes before it |
| `Arbitrator.CrossPathsSeparate` | src/main/java/org/wltea/analyzer/core/IKArbitrator.java:50-67 | every cross path after the first is non-empty, and its first lexeme does not cross the path before it |
| `Arbitrator.PlainKeepsPaths` | src/main/java/org/wltea/analyzer/core/IKArbitrator.java:52-55 | outside smart mode every cross path is output unchanged |
| `Dictionaries.LoadedTrieWords` | src/main/java/org/wltea/analyzer/dic/Dictionary.java:409-420 | a loaded trie's words are exactly the words of its file, its configured files and its remote lists |
| `Dictionaries.FillLines` | src/main/java/org/wltea/analyzer/dic/Dictionary.java:231-235 | the line loop enables, in order, every line that is non-blank after trimming, trimmed |
| `Dictionaries.FillLine` | src/main/java/org/wltea/analyzer/dic/Dictionary.java:232-234 | one line is trimmed and enabled, or skipped when blank |
| `Dictionaries.LoadDictFile` | src/main/java/org/wltea/analyzer/dic/Dictionary.java:223-243 | the file's words, with the first line's mark stripped, are enabled in order; a missing file adds nothing, and it fails the load only when it is critical |
| `Dictionaries.FillEach` | src/main/java/org/wltea/analyzer/dic/Dictionary.java:337-342 | every present word is trimmed and enabled (or disabled), in order; absent entries are skipped |
| `Dictionaries.FillWord` | src/main/java/org/wltea/analyzer/dic/Dictionary.java:338-341 | one present word is trimmed and written; an absent one is skipped |
| `Dictionaries.FillFetched` | src/main/java/org/wltea/analyzer/dic/Dictionary.java:447-457 | a null list adds nothing; otherwise every present, non-blank word is trimmed, lower-cased and enabled, in order |
| `Dictionaries.FetchOne` | src/main/java/org/wltea/analyzer/dic/Dictionary.java:451-456 | one remote word is trimmed, lower-cased and enabled, or skipped when absent or blank |
| `Dictionaries.LoadFiles` | src/main/java/org/wltea/analyzer/dic/Dictionary.java:429-434 | the listed files are loaded in order, as optional dictionaries |
| `Dictionaries.LoadOneFile` | src/main/java/org/wltea/analyzer/dic/Dictionary.java:432-433 | one listed file is loaded |
| `Dictionaries.LoadLocations` | src/main/java/org/wltea/analyzer/dic/Dictionary.java:443-458 | the lists of the configured locations are loaded in order |
| `Dictionaries.LoadOneLocation` | src/main/java/org/wltea/analyzer/dic/Dictionary.java:444-457 | one location's list is fetched and loaded |
| `Dictionaries.LoadCriticalDict` | src/main/java/org/wltea/analyzer/dic/Dictionary.java:572-576 | a critical dictionary fails, with "ik-analyzer: <name> not found!!!", exactly when its file is missing |
| `Dictionaries.Check` | src/main/java/org/wltea/analyzer/dic/Dictionary.java:603-639 | new properties are adopted only together with a reload |
| `Dictionaries.CheckMeaning` | src/main/java/org/wltea/analyzer/dic/Dictionary.java:603-639 | it reloads iff the folder and the configuration file exist and either the folder's time changed, or the configuration file's time changed and one of the four dictionary properties differs; the stamps then record the times seen; an absent folder changes nothing; an absent configuration file keeps its stamp and reloads nothing |
| `Dictionaries.CheckSettles` | src/main/java/org/wltea/analyzer/dic/Dictionary.java:611-633 | with the same times and files on disk, the next check changes nothing |
| `Dictionaries.AsWrittenOnlyMisses` | src/main/java/org/wltea/analyzer/dic/Dictionary.java:619-633 | the check as written records the same stamps, and it reloads or adopts only where the intended check does |
| `Dictionaries.CheckAsWritten` | src/main/java/org/wltea/analyzer/dic/Dictionary.java:603-639 | new properties are adopted only together with a reload; an absent folder changes nothing; otherwise the stamps record the folder's time, and the configuration file's time when it exists; an absent configuration file keeps its stamp and reloads nothing |
| `Dictionaries.AsWrittenMissesWithoutExtDict` | src/main/java/org/wltea/analyzer/dic/Dictionary.java:623-626 | with no `ext_dict`, a changed remote list is never picked up, not even on the next check |
| `Dictionaries.MovedTextCollides` | src/main/java/org/wltea/analyzer/dic/Dictionary.java:623-626 | two different settings concatenate to the same string |
| `Dictionaries.MovedTextDropsStopFile` | src/main/java/org/wltea/analyzer/dic/Dictionary.java:278-293 | those two settings configure different stop-word files |
| `Dictionaries.AsWrittenMissesMovedText` | src/main/java/org/wltea/analyzer/dic/Dictionary.java:619-633 | so the check as written does not reload when a stop-word file is removed, while the intended check does |
| `Dictionaries.Dictionary.constructor` | src/main/java/org/wltea/analyzer/dic/Dictionary.java:109-114 | a new dictionary holds the given properties and three separate empty tries |
| `Dictionaries.Dictionary.GetDictFiles` | src/main/java/org/wltea/analyzer/dic/Dictionary.java:245-260 | the local files are the walk of every configured entry that is non-blank, trimmed, in order |
| `Dictionaries.Dictionary.GetRemoteLocations` | src/main/java/org/wltea/analyzer/dic/Dictionary.java:262-276 | the remote locations are the configured entries that are non-blank, untrimmed, in order |
| `Dictionaries.Dictionary.AddWords` | src/main/java/org/wltea/analyzer/dic/Dictionary.java:335-344 | the main trie gains every present word, trimmed; a null collection changes nothing; the other tries are not touched |
| `Dictionaries.Dictionary.DisableWords` | src/main/java/org/wltea/analyzer/dic/Dictionary.java:349-358 | every present word, trimmed, is disabled in the main trie; a null collection changes nothing; the other tries are not touched |
| `Dictionaries.Dictionary.MatchInMainDict` | src/main/java/org/wltea/analyzer/dic/Dictionary.java:365-367 | the hit reports whether the key is a word and a prefix in the main trie |
| `Dictionaries.Dictionary.MatchInMainDictSpan` | src/main/java/org/wltea/analyzer/dic/Dictionary.java:374-376 | the hit, at `begin`, reports whether the span is a word and a prefix in the main trie; it ends where the span's walk stops; a prefix hit records a node of the main trie that stands for the span's subtrie |
| `Dictionaries.Dictionary.MatchInQuantifierDict` | src/main/java/org/wltea/analyzer/dic/Dictionary.java:383-385 | the hit, at `begin`, reports whether the span is a word and a prefix in the quantifier trie; it ends where the span's walk stops; a prefix hit records a node of the quantifier trie that stands for the span's subtrie |
| `Dictionaries.Dictionary.MatchWithHit` | src/main/java/org/wltea/analyzer/dic/Dictionary.java:392-395 | one more character is matched from the hit's recorded node, in the same hit, which keeps its `begin` and now ends at the new character; a prefix hit records the child reached by that character |
| `Dictionaries.Dictionary.IsStopWord` | src/main/java/org/wltea/analyzer/dic/Dictionary.java:402-404 | true iff the span is a word of the stop-word trie |
| `Dictionaries.Dictionary.LoadTrie` | src/main/java/org/wltea/analyzer/dic/Dictionary.java:409-420 | a new trie built from its file, then the configured files, then the remote lists |
| `Dictionaries.Dictionary.LoadExtFiles` | src/main/java/org/wltea/analyzer/dic/Dictionary.java:425-436 | the configured local files are added after the words already loaded |
| `Dictionaries.Dictionary.LoadRemoteLists` | src/main/java/org/wltea/analyzer/dic/Dictionary.java:441-460 | the configured remote lists are added after the words already loaded |
| `Dictionaries.Dictionary.LoadMainDict` | src/main/java/org/wltea/analyzer/dic/Dictionary.java:409-420 | the main trie is replaced by one built from `main.dic`, `ext_dict` and `remote_ext_dict` |
| `Dictionaries.Dictionary.LoadStopWordDict` | src/main/java/org/wltea/analyzer/dic/Dictionary.java:520-559 | the stop-word trie is replaced by one built from `stopword.dic`, `ext_stopwords` and `remote_ext_stopwords` |
| `Dictionaries.Dictionary.LoadQuantifierDict` | src/main/java/org/wltea/analyzer/dic/Dictionary.java:564-570 | the quantifier trie is replaced by one built from `quantifier.dic` only |
| `Dictionaries.Dictionary.SetMainDict` | src/main/java/org/wltea/analyzer/dic/Dictionary.java:597 | the main trie is swapped, and the tries stay separate |
| `Dictionaries.Dictionary.SetQuantifierDict` | src/main/java/org/wltea/analyzer/dic/Dictionary.java:566 | the quantifier trie is swapped, and the tries stay separate |
| `Dictionaries.Dictionary.SetStopWords` | src/main/java/org/wltea/analyzer/dic/Dictionary.java:598 | the stop-word trie is swapped, and the tries stay separate |
| `Dictionaries.Dictionary.Initial` | src/main/java/org/wltea/analyzer/dic/Dictionary.java:162-168 | the main trie is loaded; then the first missing critical file among surname, suffix and preposition aborts, with its message; the quantifier and stop-word tries are loaded only if the load gets that far |
| `Dictionaries.Dictionary.LoadAfterMain` | src/main/java/org/wltea/analyzer/dic/Dictionary.java:164-168 | the loads after the main trie, with the same abort rule |
| `Dictionaries.Dictionary.LoadAfterQuantifier` | src/main/java/org/wltea/analyzer/dic/Dictionary.java:166-168 | the loads after the quantifier trie, with the same abort rule |
| `Dictionaries.Dictionary.ReLoadMainDict` | src/main/java/org/wltea/analyzer/dic/Dictionary.java:590-600 | the main and stop-word tries are rebuilt from the properties on disk; the quantifier trie and the current properties are kept |
| `Dictionaries.Dictionary.LoadFreshTries` | src/main/java/org/wltea/analyzer/dic/Dictionary.java:593-596 | a temporary dictionary over the properties on disk yields two new, separate tries, for the main words and the stop words |
| `Dictionaries.Dictionary.CheckExtDict` | src/main/java/org/wltea/analyzer/dic/Dictionary.java:603-639 | the stamps, the properties and the two tries end as `Check` decides: rebuilt on a reload and untouched otherwise, with the new properties adopted only on a configuration change |
| `Dictionaries.Dictionary.FolderChanged` | src/main/java/org/wltea/analyzer/dic/Dictionary.java:611-617 | a changed folder records its time; when the configuration file exists its time is recorded and both tries are rebuilt from disk, and when it does not, the configuration stamp and the tries are kept |
| `Dictionaries.Dictionary.ConfigChanged` | src/main/java/org/wltea/analyzer/dic/Dictionary.java:619-633 | a changed configuration file records its time; it adopts the disk properties and reloads iff a dictionary property differs |

## Left out

- Concurrency is not modelled. This covers the double-checked singleton in `initial`, the scheduled thread pool, the `Monitor` tasks that poll remote lists, and the `synchronized` blocks of `DictSegment`. `getSingleton()._MainDict` is modelled as the instance's own field. The statics `extDictLastModifiedTime` and `extDictConfigLastModifiedTime` are modelled as fields of the instance.
- The static `charMap` that interns characters in `DictSegment.fillSegment` is not modelled. It decides only which `Character` object a node shares, never what the trie holds.
- File reading, `walkFileTree`, path resolution against the configuration directory, and the XML properties loading with its fallback directory are not modelled. They are I/O. Each is a parameter (`read`, `walk`, the properties map), and an I/O error in the middle of a file is not modelled.
- `getRemoteWords` is not modelled. The HTTP request, the status and charset handling, and the content-length test are network I/O. Its result is the parameter `fetch`. A `None` list stands for a null list, and a `None` entry for a null word.
- `Files.getLastModifiedTime` is not modelled. File times are parameters of type `Option<int>`. `None` stands for a missing file, where the source's call throws and the exception is logged.
- Lower-casing (`WordLists.Lower`) maps only `A`–`Z`. Unicode case mapping is not modelled.
- Java strings are modelled as sequences of Dafny `char`, which are Unicode scalar values, while Java's `char[]` and offsets count UTF-16 code units. For text outside the Basic Multilingual Plane the source's trie is one level deeper per character, its hit offsets are larger, and its child array is ordered by code unit; a lone surrogate in the source's text cannot be written in the model.
- `Dictionaries.Dictionary.Initial`: the dictionary's tries start as empty tries rather than null, and this is observable. The source publishes the singleton before it loads anything (Dictionary.java:162). When surname.dic, suffix.dic or preposition.dic is missing, the exception from Dictionary.java:239 leaves `initial` with the singleton set, a loaded main trie, and a null quantifier trie (surname.dic missing) and a null stop-word trie (any of the three missing). A later `initial` finds the singleton set and loads nothing (Dictionary.java:158-160). From then on `matchInQuantifierDict` (Dictionary.java:384) and `isStopWord` (Dictionary.java:403) throw a `NullPointerException` on the null trie, where the model's `MatchInQuantifierDict` and `IsStopWord` report no match on the empty trie left by `Fail`.
- Hit.java, Lexeme.java, LexemePath.java and QuickSortSet.java are not part of this model. The `Hit` fields, the lexeme as an offset range, `checkCross` as a test against the path's span, and `addNotCrossLexeme` as a head or tail insertion are inferred from how the core uses them.
- The `LexemePath` ordering is not modelled. It is a parameter, assumed to be a strict order. `TreeSet.first` is modelled as the earliest recorded minimal path, so two paths the ordering calls equal are not merged.
- The unused `fullTextLength` argument of `judge` is left out.
- `Arbitrator.AddCrossLexeme` and `Arbitrator.Process` require the candidates in strictly ascending candidate order. `QuickSortSet` yields them that way, and under that order the sorted insertion of `addCrossLexeme` is an append.
- `Dictionaries.Dictionary.AddWords` requires every present word to be non-blank after trimming. In the source a blank word reaches `fillSegment` with an empty array and throws. The same applies to `Dictionaries.Dictionary.DisableWords`.
- `Segments.DictSegment.Counted`: in map storage, `storeSize` equal to the number of children is not part of `Valid`, so a caller holding only `Valid()` cannot conclude it. Adding it to the invariant doubles the solver cost of every node proof. Instead, each method that can add a child keeps `storeSize` minus the number of children unchanged (`LookforSegment`, `FillSegmentAt`, `FillSegment`, `DisableSegment`), and `FillChild` and `SetChildState` leave the node's own size and children untouched by their frame; a new node starts at 0 and 0.
- `Segments.DictSegment.Match` requires `begin + length` within the text, and so do the lookups that call it. In the source a longer span reads past the array and throws, unless the walk stops at a missing character first.
- `Dictionaries.Dictionary.MatchWithHit` requires the hit to have a recorded node. In the source a hit without one throws a `NullPointerException`.
- IKSegmenter.java, IKTokenizer.java, Configuration.java and the plugin classes are not part of this model. They sequence calls into code not modelled here, or adapt the analyzer to Lucene and Elasticsearch.

## Findings

| source | as written | input that shows it | evidently intended | confidence | as-written member | corrected member |
|---|---|---|---|---|---|---|
| src/main/java/org/wltea/analyzer/dic/Dictionary.java:623-626 | `new StringBuilder(props.getProperty(EXT_DICT))` throws a `NullPointerException` when `ext_dict` is absent. The exception is caught and logged after the configuration stamp was updated, so the change is never seen again. | `ext_dict` is absent from both the current and the new properties, and `remote_ext_dict` changes from `http://a/words.txt` to `http://b/words.txt` | a change to any of the four dictionary properties reloads, whether or not `ext_dict` is set | high, not executed | `Dictionaries.CheckAsWritten`, `Dictionaries.AsWrittenMissesWithoutExtDict` | `Dictionaries.Check`, `Dictionaries.CheckMeaning`, `Dictionaries.Dictionary.CheckExtDict`, `Dictionaries.Dictionary.ConfigChanged` |
| src/main/java/org/wltea/analyzer/dic/Dictionary.java:623-628 | The four properties are compared as one concatenated string with no separator, so two different settings can compare equal. | `ext_dict=a.dic`, `ext_stopwords=b.dic` changes to `ext_dict=a.dicb.dic`, `ext_stopwords=` (empty); the stop-word file `b.dic` is dropped and nothing reloads | the properties are compared one by one | medium, not executed | `Dictionaries.CheckAsWritten`, `Dictionaries.AsWrittenMissesMovedText` | `Dictionaries.Check`, `Dictionaries.CheckMeaning`, `Dictionaries.Dictionary.CheckExtDict`, `Dictionaries.Dictionary.ConfigChanged` |
