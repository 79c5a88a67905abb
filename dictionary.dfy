// The dictionary manager: the main, quantifier and stop-word tries, how they
// are loaded from dictionary files, configured lists and remote word lists,
// the lookups the segmenters make, and the periodic check that reloads the
// main and stop-word tries when the configuration changes.
//
// The file system and the network are parameters: `read(path)` is the lines
// of a file (None when the file does not exist), `walk(entry)` the files
// `walkFileTree` lists for a configured entry, and `fetch(location)` the list
// `getRemoteWords` returns (None for null).
module Dictionaries {
  import opened Wrappers
  import opened TrieSpec
  import opened Segments
  import opened WordLists

  /** The keys of IKAnalyzer.cfg.xml that name dictionaries. */
  const EXT_DICT: string := "ext_dict"
  const REMOTE_EXT_DICT: string := "remote_ext_dict"
  const EXT_STOP: string := "ext_stopwords"
  const REMOTE_EXT_STOP: string := "remote_ext_stopwords"

  /** The dictionary files of the configuration directory. */
  const PATH_DIC_MAIN: string := "main.dic"
  const PATH_DIC_SURNAME: string := "surname.dic"
  const PATH_DIC_QUANTIFIER: string := "quantifier.dic"
  const PATH_DIC_SUFFIX: string := "suffix.dic"
  const PATH_DIC_PREP: string := "preposition.dic"
  const PATH_DIC_STOP: string := "stopword.dic"

  /** The properties loaded from IKAnalyzer.cfg.xml. */
  type Properties = map<string, string>

  function GetProperty(p: Properties, key: string): Option<string>
  {
    if key in p then Some(p[key]) else None
  }

  /** The message of the exception a missing critical dictionary raises. */
  function NotFound(name: string): string
  {
    "ik-analyzer: " + name + " not found!!!"
  }

  /** The files listed for each of `entries`, in order. */
  function WalkAll(entries: seq<string>, walk: string -> seq<string>): seq<string>
    decreases |entries|
  {
    if entries == [] then [] else WalkAll(entries[..|entries| - 1], walk) + walk(entries[|entries| - 1])
  }

  /** The local dictionary files the property `key` configures. */
  function ConfiguredFiles(p: Properties, key: string, walk: string -> seq<string>): seq<string>
  {
    WalkAll(ConfigEntries(GetProperty(p, key), true), walk)
  }

  /** The remote locations the property `key` configures. */
  function ConfiguredLocations(p: Properties, key: string): seq<string>
  {
    ConfigEntries(GetProperty(p, key), false)
  }

  /** The words one dictionary file adds; a missing file adds none. */
  function WordsOf(file: Option<seq<string>>): seq<string>
  {
    if file.None? then [] else FileWords(file.value)
  }

  /** The words a list of dictionary files adds, file after file. */
  function FilesWords(files: seq<string>, read: string -> Option<seq<string>>): seq<string>
    decreases |files|
  {
    if files == [] then [] else FilesWords(files[..|files| - 1], read) + WordsOf(read(files[|files| - 1]))
  }

  /** The words one fetched remote list adds; a null list adds none. */
  function FetchedWords(list: Option<seq<Option<string>>>): seq<string>
  {
    if list.None? then [] else RemoteWords(list.value)
  }

  /** The words a list of remote locations adds, location after location. */
  function LocationsWords(locations: seq<string>, fetch: string -> Option<seq<Option<string>>>): seq<string>
    decreases |locations|
  {
    if locations == [] then []
    else LocationsWords(locations[..|locations| - 1], fetch) + FetchedWords(fetch(locations[|locations| - 1]))
  }

  /** The words the main trie (or the stop-word trie) is built from: the
      words of its file, then of the configured local files, then of the
      configured remote lists. */
  function LoadedWords(p: Properties, file: string, extKey: string, remoteKey: string,
                       read: string -> Option<seq<string>>, walk: string -> seq<string>,
                       fetch: string -> Option<seq<Option<string>>>): seq<string>
  {
    WordsOf(read(file)) + FilesWords(ConfiguredFiles(p, extKey, walk), read)
      + LocationsWords(ConfiguredLocations(p, remoteKey), fetch)
  }

  /** The words of the main trie. */
  function MainWords(p: Properties, read: string -> Option<seq<string>>, walk: string -> seq<string>,
                     fetch: string -> Option<seq<Option<string>>>): seq<string>
  {
    LoadedWords(p, PATH_DIC_MAIN, EXT_DICT, REMOTE_EXT_DICT, read, walk, fetch)
  }

  /** The words of the stop-word trie. */
  function StopWords(p: Properties, read: string -> Option<seq<string>>, walk: string -> seq<string>,
                     fetch: string -> Option<seq<Option<string>>>): seq<string>
  {
    LoadedWords(p, PATH_DIC_STOP, EXT_STOP, REMOTE_EXT_STOP, read, walk, fetch)
  }

  /** Non-empty words are keys `fillSegment` accepts. */
  lemma NonEmptyKeys(ws: seq<string>)
    requires forall w | w in ws :: w != []
    ensures Keys(ws)
  {
    forall i | 0 <= i < |ws|
      ensures |ws[i]| >= 1
    {
      assert ws[i] in ws;
    }
  }

  /** Retained lines are keys. */
  lemma RetainedKeys(ps: seq<string>)
    ensures Keys(Retained(ps, true))
  {
    RetainedShape(ps, true);
    NonEmptyKeys(Retained(ps, true));
  }

  /** The words of one file are keys. */
  lemma WordsOfKeys(file: Option<seq<string>>)
    ensures Keys(WordsOf(file))
  {
    if file.Some? {
      RetainedKeys(Debom(file.value));
    }
  }

  /** The words of one remote list are keys. */
  lemma FetchedKeys(list: Option<seq<Option<string>>>)
    ensures Keys(FetchedWords(list))
  {
    if list.Some? {
      NonEmptyKeys(RemoteWords(list.value));
    }
  }

  /** The words of a list of files are keys. */
  lemma {:induction false} FilesWordsKeys(files: seq<string>, read: string -> Option<seq<string>>)
    ensures Keys(FilesWords(files, read))
    decreases |files|
  {
    if files != [] {
      FilesWordsKeys(files[..|files| - 1], read);
      WordsOfKeys(read(files[|files| - 1]));
    }
  }

  /** The words of a list of remote locations are keys. */
  lemma {:induction false} LocationsWordsKeys(locations: seq<string>, fetch: string -> Option<seq<Option<string>>>)
    ensures Keys(LocationsWords(locations, fetch))
    decreases |locations|
  {
    if locations != [] {
      LocationsWordsKeys(locations[..|locations| - 1], fetch);
      FetchedKeys(fetch(locations[|locations| - 1]));
    }
  }

  /** The words a trie is built from are keys. */
  lemma LoadedWordsKeys(p: Properties, file: string, extKey: string, remoteKey: string,
                        read: string -> Option<seq<string>>, walk: string -> seq<string>,
                        fetch: string -> Option<seq<Option<string>>>)
    ensures Keys(LoadedWords(p, file, extKey, remoteKey, read, walk, fetch))
  {
    WordsOfKeys(read(file));
    FilesWordsKeys(ConfiguredFiles(p, extKey, walk), read);
    LocationsWordsKeys(ConfiguredLocations(p, remoteKey), fetch);
  }

  /** A trie built from the loaded words holds exactly those words: each word
      of a file, of a configured file or of a remote list, and no other. */
  lemma LoadedTrieWords(p: Properties, file: string, extKey: string, remoteKey: string,
                        read: string -> Option<seq<string>>, walk: string -> seq<string>,
                        fetch: string -> Option<seq<Option<string>>>, w: seq<char>)
    ensures Keys(LoadedWords(p, file, extKey, remoteKey, read, walk, fetch))
    ensures var ws := LoadedWords(p, file, extKey, remoteKey, read, walk, fetch); IsWord(FillAll(Leaf, ws, 1), w) <==> w in ws
  {
    LoadedWordsKeys(p, file, extKey, remoteKey, read, walk, fetch);
    BuiltWords(LoadedWords(p, file, extKey, remoteKey, read, walk, fetch), w);
  }

  /** One entry more of a configured list: a blank one lists nothing, any
      other lists the files `walk` finds for it, trimmed. */
  lemma WalkStep(ps: seq<string>, i: int, walk: string -> seq<string>)
    requires 0 <= i < |ps|
    ensures WalkAll(Retained(ps[..i + 1], true), walk)
         == WalkAll(Retained(ps[..i], true), walk) + (if Trim(ps[i]) != [] then walk(Trim(ps[i])) else [])
  {
    RetainedStep(ps, i, true);
    var r := Retained(ps[..i], true);
    if Trim(ps[i]) != [] {
      assert (r + [Trim(ps[i])])[..|r|] == r;
    } else {
      assert r + [] == r;
    }
  }

  /** Filling the words of one more item after those of the first `i`. */
  lemma FillMore(t: Trie, before: seq<seq<char>>, more: seq<seq<char>>, after: seq<seq<char>>, mid: Trie, e: int)
    requires Keys(before) && Keys(more) && after == before + more
    requires mid == FillAll(t, before, e)
    ensures Keys(after) && FillAll(mid, more, e) == FillAll(t, after, e)
  {
    FillAllAppend(t, before, more, e);
  }

  /** One line of a dictionary file more: a blank one changes nothing, any
      other is filled trimmed. */
  lemma LineStep(t: Trie, d: seq<string>, i: int, before: Trie, after: Trie)
    requires 0 <= i < |d| && Keys(Retained(d[..i], true)) && before == FillAll(t, Retained(d[..i], true), 1)
    requires Trim(d[i]) != [] ==> after == Fill(before, Trim(d[i]), 1)
    requires Trim(d[i]) == [] ==> after == before
    ensures Keys(Retained(d[..i + 1], true)) && after == FillAll(t, Retained(d[..i + 1], true), 1)
  {
    RetainedStep(d, i, true);
    RetainedKeys(d[..i + 1]);
    if Trim(d[i]) != [] {
      FillAllSnoc(t, Retained(d[..i], true), Trim(d[i]), 1);
    } else {
      assert Retained(d[..i + 1], true) == Retained(d[..i], true);
    }
  }

  /** One word of addWords or disableWords more: a null one changes nothing,
      any other is filled or disabled trimmed. */
  lemma WordStep(t: Trie, words: seq<Option<string>>, i: int, e: int, before: Trie, after: Trie)
    requires 0 <= i < |words| && NoBlankWords(words)
    requires Keys(PresentWords(words[..i])) && before == FillAll(t, PresentWords(words[..i]), e)
    requires words[i].Some? ==> after == Fill(before, Trim(words[i].value), e)
    requires words[i].None? ==> after == before
    ensures Keys(PresentWords(words[..i + 1])) && after == FillAll(t, PresentWords(words[..i + 1]), e)
  {
    assert words[..i + 1][..i] == words[..i];
    NonEmptyKeys(PresentWords(words[..i + 1]));
    if words[i].Some? {
      FillAllSnoc(t, PresentWords(words[..i]), Trim(words[i].value), e);
    } else {
      assert PresentWords(words[..i + 1]) == PresentWords(words[..i]);
    }
  }

  /** One fetched entry more: a null or blank one changes nothing, any other
      is filled trimmed and lower-cased. */
  lemma FetchedStep(t: Trie, words: seq<Option<string>>, i: int, before: Trie, after: Trie)
    requires 0 <= i < |words|
    requires Keys(RemoteWords(words[..i])) && before == FillAll(t, RemoteWords(words[..i]), 1)
    requires words[i].Some? && Trim(words[i].value) != [] ==> after == Fill(before, Lower(Trim(words[i].value)), 1)
    requires !(words[i].Some? && Trim(words[i].value) != []) ==> after == before
    ensures Keys(RemoteWords(words[..i + 1])) && after == FillAll(t, RemoteWords(words[..i + 1]), 1)
  {
    assert words[..i + 1][..i] == words[..i];
    NonEmptyKeys(RemoteWords(words[..i + 1]));
    if words[i].Some? && Trim(words[i].value) != [] {
      FillAllSnoc(t, RemoteWords(words[..i]), Lower(Trim(words[i].value)), 1);
    } else {
      assert RemoteWords(words[..i + 1]) == RemoteWords(words[..i]);
    }
  }

  /**
   * `d` is a well-formed trie. This is DictSegment.Valid under a module-level
   * name: the loops below state their invariant with it, so that the solver
   * keeps the trie's well-formedness as one fact from one iteration to the
   * next instead of unfolding Valid's conjuncts at every step.
   */
  ghost predicate Intact(d: DictSegment)
    reads d, d.Repr
  {
    d.Valid()
  }

  /** The line loop of loadDictFile: every line trimmed, blank lines
      skipped, the rest filled. */
  method FillLines(dict: DictSegment, lines: seq<string>)
    requires Intact(dict)
    modifies dict.Repr
    ensures Intact(dict) && fresh(dict.Repr - old(dict.Repr))
    ensures Keys(Retained(lines, true)) && dict.View == FillAll(old(dict.View), Retained(lines, true), 1)
  {
    var i := 0;
    while i < |lines|
      invariant 0 <= i <= |lines|
      invariant Intact(dict)
      invariant fresh(dict.Repr - old(dict.Repr))
      invariant Keys(Retained(lines[..i], true))
      invariant dict.View == FillAll(old(dict.View), Retained(lines[..i], true), 1)
    {
      FillLine(dict, lines, i, old(dict.View));
      i := i + 1;
    }
    assert lines[..i] == lines;
  }

  /** One turn of the line loop of loadDictFile. */
  method FillLine(dict: DictSegment, lines: seq<string>, i: int, ghost t: Trie)
    requires 0 <= i < |lines| && Intact(dict)
    requires Keys(Retained(lines[..i], true)) && dict.View == FillAll(t, Retained(lines[..i], true), 1)
    modifies dict.Repr
    ensures Intact(dict) && fresh(dict.Repr - old(dict.Repr))
    ensures Keys(Retained(lines[..i + 1], true)) && dict.View == FillAll(t, Retained(lines[..i + 1], true), 1)
  {
    ghost var before := dict.View;
    var word := Trim(lines[i]);
    if word != [] {
      dict.FillSegment(word);
    }
    LineStep(t, lines, i, before, dict.View);
  }

  /** loadDictFile: fills `dict` with the words of `file`. A missing file is
      an error only for a critical dictionary; otherwise it is skipped. */
  method LoadDictFile(dict: DictSegment, file: Option<seq<string>>, critical: bool, name: string)
    returns (outcome: Outcome)
    requires Intact(dict)
    modifies dict.Repr
    ensures Intact(dict) && fresh(dict.Repr - old(dict.Repr))
    ensures Keys(WordsOf(file)) && dict.View == FillAll(old(dict.View), WordsOf(file), 1)
    ensures outcome == if file.None? && critical then Fail(NotFound(name)) else Pass
  {
    if file.None? {
      if critical {
        return Fail(NotFound(name));
      }
      return Pass;
    }
    FillLines(dict, Debom(file.value));
    outcome := Pass;
  }

  /** The loop of addWords and disableWords: every present word, trimmed,
      is filled (enabled = 1) or disabled (enabled = 0). */
  method FillEach(dict: DictSegment, words: seq<Option<string>>, enabled: int)
    requires Intact(dict) && NoBlankWords(words) && (enabled == 0 || enabled == 1)
    modifies dict.Repr
    ensures Intact(dict) && fresh(dict.Repr - old(dict.Repr))
    ensures Keys(PresentWords(words)) && dict.View == FillAll(old(dict.View), PresentWords(words), enabled)
  {
    var i := 0;
    while i < |words|
      invariant 0 <= i <= |words|
      invariant Intact(dict)
      invariant fresh(dict.Repr - old(dict.Repr))
      invariant Keys(PresentWords(words[..i]))
      invariant dict.View == FillAll(old(dict.View), PresentWords(words[..i]), enabled)
    {
      FillWord(dict, words, i, enabled, old(dict.View));
      i := i + 1;
    }
    assert words[..i] == words;
  }

  /** One turn of the loop of addWords and disableWords. */
  method FillWord(dict: DictSegment, words: seq<Option<string>>, i: int, enabled: int, ghost t: Trie)
    requires 0 <= i < |words| && Intact(dict) && NoBlankWords(words) && (enabled == 0 || enabled == 1)
    requires Keys(PresentWords(words[..i])) && dict.View == FillAll(t, PresentWords(words[..i]), enabled)
    modifies dict.Repr
    ensures Intact(dict) && fresh(dict.Repr - old(dict.Repr))
    ensures Keys(PresentWords(words[..i + 1])) && dict.View == FillAll(t, PresentWords(words[..i + 1]), enabled)
  {
    ghost var before := dict.View;
    if words[i].Some? {
      var word := Trim(words[i].value);
      if enabled == 1 {
        dict.FillSegment(word);
      } else {
        dict.DisableSegment(word);
      }
    }
    WordStep(t, words, i, enabled, before, dict.View);
  }

  /** The loop over one fetched remote list: a null list is skipped, blank
      entries too, and the rest is filled trimmed and lower-cased. */
  method FillFetched(dict: DictSegment, list: Option<seq<Option<string>>>)
    requires Intact(dict)
    modifies dict.Repr
    ensures Intact(dict) && fresh(dict.Repr - old(dict.Repr))
    ensures Keys(FetchedWords(list)) && dict.View == FillAll(old(dict.View), FetchedWords(list), 1)
  {
    FetchedKeys(list);
    if list.None? {
      return;
    }
    var words := list.value;
    var i := 0;
    while i < |words|
      invariant 0 <= i <= |words|
      invariant Intact(dict)
      invariant fresh(dict.Repr - old(dict.Repr))
      invariant Keys(RemoteWords(words[..i]))
      invariant dict.View == FillAll(old(dict.View), RemoteWords(words[..i]), 1)
    {
      FetchOne(dict, words, i, old(dict.View));
      i := i + 1;
    }
    assert words[..i] == words;
  }

  /** One turn of the loop over a fetched remote list. */
  method FetchOne(dict: DictSegment, words: seq<Option<string>>, i: int, ghost t: Trie)
    requires 0 <= i < |words| && Intact(dict)
    requires Keys(RemoteWords(words[..i])) && dict.View == FillAll(t, RemoteWords(words[..i]), 1)
    modifies dict.Repr
    ensures Intact(dict) && fresh(dict.Repr - old(dict.Repr))
    ensures Keys(RemoteWords(words[..i + 1])) && dict.View == FillAll(t, RemoteWords(words[..i + 1]), 1)
  {
    ghost var before := dict.View;
    if words[i].Some? && Trim(words[i].value) != [] {
      var word := Lower(Trim(words[i].value));
      LowerMeaning(Trim(words[i].value));
      dict.FillSegment(word);
    }
    FetchedStep(t, words, i, before, dict.View);
  }

  /** The loop of loadExtDict and of the local half of loadStopWordDict:
      every listed file, in order, none of them critical. */
  method LoadFiles(dict: DictSegment, files: seq<string>, read: string -> Option<seq<string>>, name: string)
    requires Intact(dict)
    modifies dict.Repr
    ensures Intact(dict) && fresh(dict.Repr - old(dict.Repr))
    ensures Keys(FilesWords(files, read)) && dict.View == FillAll(old(dict.View), FilesWords(files, read), 1)
  {
    var i := 0;
    while i < |files|
      invariant 0 <= i <= |files|
      invariant Intact(dict)
      invariant fresh(dict.Repr - old(dict.Repr))
      invariant Keys(FilesWords(files[..i], read))
      invariant dict.View == FillAll(old(dict.View), FilesWords(files[..i], read), 1)
    {
      LoadOneFile(dict, files, i, read, name, old(dict.View));
      i := i + 1;
    }
    assert files[..i] == files;
  }

  /** One turn of the loop of loadExtDict: one more file, not critical. */
  method LoadOneFile(dict: DictSegment, files: seq<string>, i: int, read: string -> Option<seq<string>>,
                     name: string, ghost t: Trie)
    requires 0 <= i < |files| && Intact(dict)
    requires Keys(FilesWords(files[..i], read)) && dict.View == FillAll(t, FilesWords(files[..i], read), 1)
    modifies dict.Repr
    ensures Intact(dict) && fresh(dict.Repr - old(dict.Repr))
    ensures Keys(FilesWords(files[..i + 1], read)) && dict.View == FillAll(t, FilesWords(files[..i + 1], read), 1)
  {
    assert files[..i + 1][..i] == files[..i];
    WordsOfKeys(read(files[i]));
    ghost var mid := dict.View;
    var _ := LoadDictFile(dict, read(files[i]), false, name);
    FillMore(t, FilesWords(files[..i], read), WordsOf(read(files[i])), FilesWords(files[..i + 1], read), mid, 1);
  }

  /** The loop of loadRemoteExtDict and of the remote half of
      loadStopWordDict: every location, in order. */
  method LoadLocations(dict: DictSegment, locations: seq<string>, fetch: string -> Option<seq<Option<string>>>)
    requires Intact(dict)
    modifies dict.Repr
    ensures Intact(dict) && fresh(dict.Repr - old(dict.Repr))
    ensures Keys(LocationsWords(locations, fetch))
    ensures dict.View == FillAll(old(dict.View), LocationsWords(locations, fetch), 1)
  {
    var i := 0;
    while i < |locations|
      invariant 0 <= i <= |locations|
      invariant Intact(dict)
      invariant fresh(dict.Repr - old(dict.Repr))
      invariant Keys(LocationsWords(locations[..i], fetch))
      invariant dict.View == FillAll(old(dict.View), LocationsWords(locations[..i], fetch), 1)
    {
      LoadOneLocation(dict, locations, i, fetch, old(dict.View));
      i := i + 1;
    }
    assert locations[..i] == locations;
  }

  /** One turn of the loop of loadRemoteExtDict: one more location. */
  method LoadOneLocation(dict: DictSegment, locations: seq<string>, i: int,
                         fetch: string -> Option<seq<Option<string>>>, ghost t: Trie)
    requires 0 <= i < |locations| && Intact(dict)
    requires Keys(LocationsWords(locations[..i], fetch)) && dict.View == FillAll(t, LocationsWords(locations[..i], fetch), 1)
    modifies dict.Repr
    ensures Intact(dict) && fresh(dict.Repr - old(dict.Repr))
    ensures Keys(LocationsWords(locations[..i + 1], fetch))
    ensures dict.View == FillAll(t, LocationsWords(locations[..i + 1], fetch), 1)
  {
    assert locations[..i + 1][..i] == locations[..i];
    ghost var mid := dict.View;
    FillFetched(dict, fetch(locations[i]));
    FillMore(t, LocationsWords(locations[..i], fetch), FetchedWords(fetch(locations[i])),
             LocationsWords(locations[..i + 1], fetch), mid, 1);
  }

  /** loadSurnameDict, loadSuffixDict, loadPrepDict: the trie is built and
      dropped; only a missing file matters, and it is an error. */
  method LoadCriticalDict(read: string -> Option<seq<string>>, file: string, name: string)
    returns (outcome: Outcome)
    ensures outcome.Fail? <==> read(file).None?
    ensures outcome.Fail? ==> outcome.message == NotFound(name)
  {
    var discarded := new DictSegment(0 as char);
    outcome := LoadDictFile(discarded, read(file), true, name);
  }

  /** When the periodic check last saw the ext-dict folder and the
      configuration file change. */
  datatype Stamps = Stamps(folder: Option<int>, config: Option<int>)

  /** What one run of checkExtDict decides: the new stamps, whether the main
      and stop-word tries are reloaded, and whether the properties read from
      disk replace the current ones. */
  datatype Verdict = Verdict(stamps: Stamps, reload: bool, adopt: bool)

  /** The four dictionary properties, absent ones included. */
  function DictSettings(p: Properties): seq<Option<string>>
  {
    [GetProperty(p, EXT_DICT), GetProperty(p, EXT_STOP), GetProperty(p, REMOTE_EXT_DICT), GetProperty(p, REMOTE_EXT_STOP)]
  }

  /** What StringBuilder.append makes of a property: its value, or "null". */
  function Shown(v: Option<string>): string
  {
    if v.None? then "null" else v.value
  }

  /** The string checkExtDict compares: the four properties concatenated. */
  function Concatenated(p: Properties): string
  {
    Shown(GetProperty(p, EXT_DICT)) + Shown(GetProperty(p, EXT_STOP))
      + Shown(GetProperty(p, REMOTE_EXT_DICT)) + Shown(GetProperty(p, REMOTE_EXT_STOP))
  }

  /** checkExtDict as written. `folder` is the ext-dict folder's time (None
      when it does not exist), `config` the configuration file's time (None
      when it does not exist, where reading the time throws and the
      exception is logged), `cur` the current properties and `disk` those
      read from disk again. Building the concatenations starts with
      `new StringBuilder(ext_dict)`, which throws when `ext_dict` is absent
      from either side; the exception is logged, after the configuration
      stamp has been updated. */
  function CheckAsWritten(folder: Option<int>, config: Option<int>, last: Stamps, cur: Properties, disk: Properties): (v: Verdict)
    ensures v.adopt ==> v.reload
    ensures folder.None? ==> v.stamps == last && !v.reload
    ensures folder.Some? ==> v.stamps.folder == folder
    ensures folder.Some? && config.Some? ==> v.stamps.config == config
    ensures config.None? ==> v.stamps.config == last.config && !v.reload
  {
    if folder.None? then Verdict(last, false, false)
    else if Some(folder.value) != last.folder then
      if config.None? then Verdict(last.(folder := folder), false, false)
      else Verdict(Stamps(folder, config), true, false)
    else if config.None? || config == last.config then Verdict(last, false, false)
    else
      var stamps := last.(config := config);
      if EXT_DICT !in disk || EXT_DICT !in cur then Verdict(stamps, false, false)
      else if Concatenated(disk) != Concatenated(cur) then Verdict(stamps, true, true)
      else Verdict(stamps, false, false)
  }

  /** checkExtDict as intended: a changed folder reloads; a changed
      configuration file reloads, adopting the new properties, exactly when
      one of the four dictionary properties differs. */
  function Check(folder: Option<int>, config: Option<int>, last: Stamps, cur: Properties, disk: Properties): (v: Verdict)
    ensures v.adopt ==> v.reload
  {
    if folder.None? then Verdict(last, false, false)
    else if Some(folder.value) != last.folder then
      if config.None? then Verdict(last.(folder := folder), false, false)
      else Verdict(Stamps(folder, config), true, false)
    else if config.None? || config == last.config then Verdict(last, false, false)
    else Verdict(last.(config := config), DictSettings(disk) != DictSettings(cur), DictSettings(disk) != DictSettings(cur))
  }

  /** What the intended check promises: it reloads exactly when the folder
      and the configuration file exist and either the folder changed, or the
      configuration file changed and with it one of the dictionary
      properties; the stamps then record the times seen. A folder that does
      not exist changes nothing, and a configuration file that does not
      exist leaves its stamp as it was and reloads nothing. */
  lemma CheckMeaning(folder: Option<int>, config: Option<int>, last: Stamps, cur: Properties, disk: Properties)
    ensures Check(folder, config, last, cur, disk).reload <==>
              && folder.Some? && config.Some?
              && (Some(folder.value) != last.folder
                  || (config != last.config
                      && exists k | k in [EXT_DICT, EXT_STOP, REMOTE_EXT_DICT, REMOTE_EXT_STOP] ::
                           GetProperty(disk, k) != GetProperty(cur, k)))
    ensures folder.Some? && config.Some? ==> Check(folder, config, last, cur, disk).stamps.config == config
    ensures config.None? ==> Check(folder, config, last, cur, disk).stamps.config == last.config
    ensures folder.Some? ==> Check(folder, config, last, cur, disk).stamps.folder == folder
    ensures folder.None? ==> Check(folder, config, last, cur, disk) == Verdict(last, false, false)
  {
    var ks := [EXT_DICT, EXT_STOP, REMOTE_EXT_DICT, REMOTE_EXT_STOP];
    if DictSettings(disk) != DictSettings(cur) {
      var i :| 0 <= i < 4 && DictSettings(disk)[i] != DictSettings(cur)[i];
      assert ks[i] in ks && GetProperty(disk, ks[i]) != GetProperty(cur, ks[i]);
    }
  }

  /** Once a check has acted, a second check that sees the same times does
      nothing. */
  lemma CheckSettles(folder: Option<int>, config: Option<int>, last: Stamps, cur: Properties, disk: Properties)
    ensures var v := Check(folder, config, last, cur, disk);
            var cur' := if v.adopt then disk else cur;
            Check(folder, config, v.stamps, cur', disk) == Verdict(v.stamps, false, false)
  {
  }

  /** The check as written never reloads where the intended one does not,
      and records the same stamps; it differs only by missing reloads. */
  lemma AsWrittenOnlyMisses(folder: Option<int>, config: Option<int>, last: Stamps, cur: Properties, disk: Properties)
    ensures CheckAsWritten(folder, config, last, cur, disk).stamps == Check(folder, config, last, cur, disk).stamps
    ensures CheckAsWritten(folder, config, last, cur, disk).reload ==> Check(folder, config, last, cur, disk).reload
    ensures CheckAsWritten(folder, config, last, cur, disk).adopt ==> Check(folder, config, last, cur, disk).adopt
  {
    if Concatenated(disk) != Concatenated(cur) {
      assert DictSettings(disk) != DictSettings(cur);
    }
  }

  /** A configuration without `ext_dict` that changes its remote dictionary:
      the check as written never reloads, not even on the next run, while the
      intended check reloads. */
  lemma AsWrittenMissesWithoutExtDict()
    ensures var last := Stamps(Some(1), Some(1));
            var cur := map[REMOTE_EXT_DICT := "http://a/words.txt"];
            var disk := map[REMOTE_EXT_DICT := "http://b/words.txt"];
            var v := CheckAsWritten(Some(1), Some(2), last, cur, disk);
            && !v.reload && !CheckAsWritten(Some(1), Some(2), v.stamps, cur, disk).reload
            && Check(Some(1), Some(2), last, cur, disk).reload
  {
    var cur := map[REMOTE_EXT_DICT := "http://a/words.txt"];
    var disk := map[REMOTE_EXT_DICT := "http://b/words.txt"];
    assert GetProperty(disk, REMOTE_EXT_DICT) != GetProperty(cur, REMOTE_EXT_DICT);
    assert DictSettings(disk)[2] != DictSettings(cur)[2];
  }

  /** A configuration, and the same one after the text of `ext_stopwords`
      has been moved to the end of `ext_dict`. */
  const MovedFrom: Properties := map[EXT_DICT := "a.dic", EXT_STOP := "b.dic"]
  const MovedTo: Properties := map[EXT_DICT := "a.dicb.dic", EXT_STOP := ""]

  /** Moving the text leaves the concatenation unchanged although the
      settings differ. */
  lemma MovedTextCollides()
    ensures Concatenated(MovedFrom) == Concatenated(MovedTo)
    ensures DictSettings(MovedTo) != DictSettings(MovedFrom)
  {
    assert DictSettings(MovedTo)[0] != DictSettings(MovedFrom)[0];
  }

  /** Before the move one stop-word file is configured, after it none. */
  lemma MovedTextDropsStopFile()
    ensures ConfigEntries(GetProperty(MovedFrom, EXT_STOP), true) == ["b.dic"]
    ensures ConfigEntries(GetProperty(MovedTo, EXT_STOP), true) == []
  {
    assert Trimmed("b.dic");
    TrimOfTrimmed("b.dic");
    ConfigEntriesJoin(["b.dic"]);
    assert Join(["b.dic"], ';') == "b.dic";
    assert Retained([[]], true) == Keep([], true);
  }

  /** Moving text from `ext_stopwords` to the end of `ext_dict` leaves the
      concatenation unchanged: the check as written does not reload although
      the stop-word files are no longer configured. */
  lemma AsWrittenMissesMovedText()
    ensures var last := Stamps(Some(1), Some(1));
            && !CheckAsWritten(Some(1), Some(2), last, MovedFrom, MovedTo).reload
            && Check(Some(1), Some(2), last, MovedFrom, MovedTo).reload
            && ConfigEntries(GetProperty(MovedFrom, EXT_STOP), true) == ["b.dic"]
            && ConfigEntries(GetProperty(MovedTo, EXT_STOP), true) == []
  {
    MovedTextCollides();
    MovedTextDropsStopFile();
  }

  /** The dictionary singleton: its three tries and its properties. */
  class Dictionary {
    var mainDict: DictSegment
    var quantifierDict: DictSegment
    var stopWords: DictSegment
    var props: Properties
    /** The times the last checkExtDict saw (static fields of the source). */
    var extDictLastModifiedTime: Option<int>
    var extDictConfigLastModifiedTime: Option<int>

    /** The three tries are valid and share no node. */
    ghost predicate Valid()
      reads this, mainDict, mainDict.Repr, quantifierDict, quantifierDict.Repr, stopWords, stopWords.Repr
    {
      && this !in mainDict.Repr && this !in quantifierDict.Repr && this !in stopWords.Repr
      && Intact(mainDict) && Intact(quantifierDict) && Intact(stopWords)
      && mainDict.Repr !! quantifierDict.Repr
      && mainDict.Repr !! stopWords.Repr
      && quantifierDict.Repr !! stopWords.Repr
    }

    /** new Dictionary(cfg), with the properties it loads: every trie starts
        empty and no time has been seen. */
    constructor (props: Properties)
      ensures Valid() && fresh(mainDict.Repr) && fresh(quantifierDict.Repr) && fresh(stopWords.Repr)
      ensures this.props == props
      ensures mainDict.View == Leaf && quantifierDict.View == Leaf && stopWords.View == Leaf
      ensures extDictLastModifiedTime == None && extDictConfigLastModifiedTime == None
    {
      var m := new DictSegment(0 as char);
      var q := new DictSegment(0 as char);
      var s := new DictSegment(0 as char);
      mainDict, quantifierDict, stopWords := m, q, s;
      this.props := props;
      extDictLastModifiedTime, extDictConfigLastModifiedTime := None, None;
    }

    /** getExtDictionarys and getExtStopWordDictionarys: the non-blank
        entries of the property `key`, trimmed, each listed by `walk`. */
    method GetDictFiles(key: string, walk: string -> seq<string>) returns (files: seq<string>)
      ensures files == ConfiguredFiles(props, key, walk)
    {
      files := [];
      if key in props {
        var filePaths := JavaSplit(props[key], ';');
        var i := 0;
        while i < |filePaths|
          invariant 0 <= i <= |filePaths|
          invariant files == WalkAll(Retained(filePaths[..i], true), walk)
        {
          WalkStep(filePaths, i, walk);
          if Trim(filePaths[i]) != [] {
            files := files + walk(Trim(filePaths[i]));
          }
          i := i + 1;
        }
        assert filePaths[..i] == filePaths;
      }
    }

    /** getRemoteExtDictionarys and getRemoteExtStopWordDictionarys: the
        non-blank entries of the property `key`, as written. */
    method GetRemoteLocations(key: string) returns (locations: seq<string>)
      ensures locations == ConfiguredLocations(props, key)
    {
      locations := [];
      if key in props {
        var filePaths := JavaSplit(props[key], ';');
        var i := 0;
        while i < |filePaths|
          invariant 0 <= i <= |filePaths|
          invariant locations == Retained(filePaths[..i], false)
        {
          RetainedStep(filePaths, i, false);
          if Trim(filePaths[i]) != [] {
            locations := locations + [filePaths[i]];
          }
          i := i + 1;
        }
        assert filePaths[..i] == filePaths;
      }
    }

    /** addWords: each present word, trimmed, becomes an enabled word of the
        main trie. A null collection changes nothing. */
    method AddWords(words: Option<seq<Option<string>>>)
      requires Valid() && (words.Some? ==> NoBlankWords(words.value))
      modifies mainDict.Repr
      ensures Valid() && fresh(mainDict.Repr - old(mainDict.Repr))
      ensures words.None? ==> mainDict.View == old(mainDict.View)
      ensures words.Some? ==> Keys(PresentWords(words.value))
                              && mainDict.View == FillAll(old(mainDict.View), PresentWords(words.value), 1)
    {
      if words.Some? {
        FillEach(mainDict, words.value, 1);
      }
    }

    /** disableWords: each present word, trimmed, stops being an enabled
        word of the main trie; no node is created. */
    method DisableWords(words: Option<seq<Option<string>>>)
      requires Valid() && (words.Some? ==> NoBlankWords(words.value))
      modifies mainDict.Repr
      ensures Valid() && fresh(mainDict.Repr - old(mainDict.Repr))
      ensures words.None? ==> mainDict.View == old(mainDict.View)
      ensures words.Some? ==> Keys(PresentWords(words.value))
                              && mainDict.View == FillAll(old(mainDict.View), PresentWords(words.value), 0)
    {
      if words.Some? {
        FillEach(mainDict, words.value, 0);
      }
    }

    /** matchInMainDict(charArray): the whole key against the main trie. */
    method MatchInMainDict(key: seq<char>) returns (hit: Hit)
      requires Valid() && |key| >= 1
      ensures fresh(hit) && hit.begin == 0 && hit.end == Walk(mainDict.View, key, 0).end
      ensures hit.matched <==> IsWord(mainDict.View, key)
      ensures hit.prefix <==> IsPrefix(mainDict.View, key)
      ensures hit.prefix ==> && hit.matchedSegment != null
                             && hit.matchedSegment.Valid() && hit.matchedSegment.Repr <= mainDict.Repr
                             && Lookup(mainDict.View, key) == Some(hit.matchedSegment.View)
    {
      hit := mainDict.MatchWord(key);
      WalkFlags(mainDict.View, key, 0);
    }

    /** matchInMainDict(charArray, begin, length): a span of the text
        against the main trie. */
    method MatchInMainDictSpan(key: seq<char>, begin: int, length: int) returns (hit: Hit)
      requires Valid() && 0 <= begin < |key| && begin + length <= |key|
      ensures fresh(hit) && hit.begin == begin
      ensures hit.matched <==> 1 <= length && IsWord(mainDict.View, key[begin..begin + length])
      ensures hit.prefix <==> 1 <= length && IsPrefix(mainDict.View, key[begin..begin + length])
      ensures hit.end == if 1 <= length then Walk(mainDict.View, key[begin..begin + length], begin).end else begin
      ensures hit.prefix ==> && hit.matchedSegment != null
                             && hit.matchedSegment.Valid() && hit.matchedSegment.Repr <= mainDict.Repr
                             && Lookup(mainDict.View, key[begin..begin + length]) == Some(hit.matchedSegment.View)
    {
      hit := mainDict.MatchSpan(key, begin, length);
      if 1 <= length {
        WalkFlags(mainDict.View, key[begin..begin + length], begin);
      }
    }

    /** matchInQuantifierDict: a span of the text against the quantifier trie. */
    method MatchInQuantifierDict(key: seq<char>, begin: int, length: int) returns (hit: Hit)
      requires Valid() && 0 <= begin < |key| && begin + length <= |key|
      ensures fresh(hit) && hit.begin == begin
      ensures hit.matched <==> 1 <= length && IsWord(quantifierDict.View, key[begin..begin + length])
      ensures hit.prefix <==> 1 <= length && IsPrefix(quantifierDict.View, key[begin..begin + length])
      ensures hit.end == if 1 <= length then Walk(quantifierDict.View, key[begin..begin + length], begin).end else begin
      ensures hit.prefix ==> && hit.matchedSegment != null
                             && hit.matchedSegment.Valid() && hit.matchedSegment.Repr <= quantifierDict.Repr
                             && Lookup(quantifierDict.View, key[begin..begin + length]) == Some(hit.matchedSegment.View)
    {
      hit := quantifierDict.MatchSpan(key, begin, length);
      if 1 <= length {
        WalkFlags(quantifierDict.View, key[begin..begin + length], begin);
      }
    }

    /** matchWithHit: goes on from the node a prefix hit stopped at, by the
        one character at `currentIndex`, updating that same hit. */
    method MatchWithHit(key: seq<char>, currentIndex: int, matchedHit: Hit) returns (hit: Hit)
      requires matchedHit.matchedSegment != null && matchedHit.matchedSegment.Valid()
      requires matchedHit !in matchedHit.matchedSegment.Repr
      requires 0 <= currentIndex < |key|
      modifies matchedHit
      ensures hit == matchedHit && hit.begin == old(matchedHit.begin)
      ensures hit.matched <==> IsWord(old(matchedHit.matchedSegment.View), [key[currentIndex]])
      ensures hit.prefix <==> IsPrefix(old(matchedHit.matchedSegment.View), [key[currentIndex]])
      ensures hit.end == currentIndex
      ensures hit.prefix ==>
                && hit.matchedSegment != null && hit.matchedSegment.Valid()
                && hit.matchedSegment.Repr <= old(matchedHit.matchedSegment.Repr)
                && Lookup(old(matchedHit.matchedSegment.View), [key[currentIndex]]) == Some(hit.matchedSegment.View)
      ensures !hit.prefix ==> hit.matchedSegment == old(matchedHit.matchedSegment)
    {
      var ds := matchedHit.matchedSegment;
      hit := ds.Match(key, currentIndex, 1, matchedHit);
      assert key[currentIndex..currentIndex + 1] == [key[currentIndex]];
      WalkFlags(ds.View, [key[currentIndex]], currentIndex);
    }

    /** isStopWord: the span is an enabled word of the stop-word trie. */
    method IsStopWord(key: seq<char>, begin: int, length: int) returns (r: bool)
      requires Valid() && 0 <= begin < |key| && begin + length <= |key|
      ensures r <==> 1 <= length && IsWord(stopWords.View, key[begin..begin + length])
    {
      var hit := stopWords.MatchSpan(key, begin, length);
      if 1 <= length {
        WalkFlags(stopWords.View, key[begin..begin + length], begin);
      }
      r := hit.matched;
    }

    /** The trie loadMainDict or loadStopWordDict builds: a new root, then
        the words of `file`, of the files configured under `extKey` and of
        the lists configured under `remoteKey`. */
    method LoadTrie(file: string, extKey: string, remoteKey: string, names: (string, string),
                    read: string -> Option<seq<string>>, walk: string -> seq<string>,
                    fetch: string -> Option<seq<Option<string>>>)
      returns (dict: DictSegment)
      ensures Intact(dict) && fresh(dict.Repr)
      ensures Keys(LoadedWords(props, file, extKey, remoteKey, read, walk, fetch))
      ensures dict.View == FillAll(Leaf, LoadedWords(props, file, extKey, remoteKey, read, walk, fetch), 1)
    {
      dict := new DictSegment(0 as char);
      var _ := LoadDictFile(dict, read(file), false, names.0);
      assert fresh(dict.Repr);
      LoadExtFiles(dict, extKey, read, walk, names.1, WordsOf(read(file)));
      assert fresh(dict.Repr);
      LoadRemoteLists(dict, remoteKey, fetch, WordsOf(read(file)) + FilesWords(ConfiguredFiles(props, extKey, walk), read));
    }

    /** loadExtDict, and the local half of loadStopWordDict: the words of
        every file configured under `key` go in after the words `before`. */
    method LoadExtFiles(dict: DictSegment, key: string, read: string -> Option<seq<string>>,
                        walk: string -> seq<string>, name: string, ghost before: seq<seq<char>>)
      requires Intact(dict) && this !in dict.Repr
      requires Keys(before) && dict.View == FillAll(Leaf, before, 1)
      modifies dict.Repr
      ensures Intact(dict) && fresh(dict.Repr - old(dict.Repr)) && this !in dict.Repr
      ensures Keys(before + FilesWords(ConfiguredFiles(props, key, walk), read))
      ensures dict.View == FillAll(Leaf, before + FilesWords(ConfiguredFiles(props, key, walk), read), 1)
    {
      ghost var mid := dict.View;
      var files := GetDictFiles(key, walk);
      LoadFiles(dict, files, read, name);
      FillMore(Leaf, before, FilesWords(files, read), before + FilesWords(files, read), mid, 1);
    }

    /** loadRemoteExtDict, and the remote half of loadStopWordDict: the
        words of every list configured under `key` go in after `before`. */
    method LoadRemoteLists(dict: DictSegment, key: string, fetch: string -> Option<seq<Option<string>>>,
                           ghost before: seq<seq<char>>)
      requires Intact(dict) && this !in dict.Repr
      requires Keys(before) && dict.View == FillAll(Leaf, before, 1)
      modifies dict.Repr
      ensures Intact(dict) && fresh(dict.Repr - old(dict.Repr))
      ensures Keys(before + LocationsWords(ConfiguredLocations(props, key), fetch))
      ensures dict.View == FillAll(Leaf, before + LocationsWords(ConfiguredLocations(props, key), fetch), 1)
    {
      ghost var mid := dict.View;
      var locations := GetRemoteLocations(key);
      LoadLocations(dict, locations, fetch);
      FillMore(Leaf, before, LocationsWords(locations, fetch), before + LocationsWords(locations, fetch), mid, 1);
    }

    /** Replaces the main trie by `dict`, which shares no node with the
        other two. */
    method SetMainDict(dict: DictSegment)
      requires Valid() && Intact(dict) && this !in dict.Repr
      requires dict.Repr !! quantifierDict.Repr && dict.Repr !! stopWords.Repr
      modifies this`mainDict
      ensures Valid() && mainDict == dict
    {
      mainDict := dict;
    }

    /** Replaces the quantifier trie by `dict`, which shares no node with
        the other two. */
    method SetQuantifierDict(dict: DictSegment)
      requires Valid() && Intact(dict) && this !in dict.Repr
      requires dict.Repr !! mainDict.Repr && dict.Repr !! stopWords.Repr
      modifies this`quantifierDict
      ensures Valid() && quantifierDict == dict
    {
      quantifierDict := dict;
    }

    /** Replaces the stop-word trie by `dict`, which shares no node with the
        other two. */
    method SetStopWords(dict: DictSegment)
      requires Valid() && Intact(dict) && this !in dict.Repr
      requires dict.Repr !! mainDict.Repr && dict.Repr !! quantifierDict.Repr
      modifies this`stopWords
      ensures Valid() && stopWords == dict
    {
      stopWords := dict;
    }

    /** loadMainDict: a new main trie with the words of main.dic, of the
        configured extension files and of the configured remote lists. */
    method LoadMainDict(read: string -> Option<seq<string>>, walk: string -> seq<string>,
                        fetch: string -> Option<seq<Option<string>>>)
      requires Valid()
      modifies this`mainDict
      ensures Valid() && fresh(mainDict.Repr)
      ensures Keys(MainWords(props, read, walk, fetch))
      ensures mainDict.View == FillAll(Leaf, MainWords(props, read, walk, fetch), 1)
    {
      var dict := LoadTrie(PATH_DIC_MAIN, EXT_DICT, REMOTE_EXT_DICT, ("Main Dict", "Extra Dict"), read, walk, fetch);
      SetMainDict(dict);
    }

    /** loadStopWordDict: a new stop-word trie with the words of
        stopword.dic, of the configured extension stop-word files and of the
        configured remote stop-word lists. */
    method LoadStopWordDict(read: string -> Option<seq<string>>, walk: string -> seq<string>,
                            fetch: string -> Option<seq<Option<string>>>)
      requires Valid()
      modifies this`stopWords
      ensures Valid() && fresh(stopWords.Repr)
      ensures Keys(StopWords(props, read, walk, fetch))
      ensures stopWords.View == FillAll(Leaf, StopWords(props, read, walk, fetch), 1)
    {
      var dict := LoadTrie(PATH_DIC_STOP, EXT_STOP, REMOTE_EXT_STOP, ("Main Stopwords", "Extra Stopwords"), read, walk, fetch);
      SetStopWords(dict);
    }

    /** loadQuantifierDict: a new quantifier trie with the words of
        quantifier.dic, which may be missing. */
    method LoadQuantifierDict(read: string -> Option<seq<string>>)
      requires Valid()
      modifies this`quantifierDict
      ensures Valid() && fresh(quantifierDict.Repr)
      ensures Keys(WordsOf(read(PATH_DIC_QUANTIFIER)))
      ensures quantifierDict.View == FillAll(Leaf, WordsOf(read(PATH_DIC_QUANTIFIER)), 1)
    {
      var dict := new DictSegment(0 as char);
      var _ := LoadDictFile(dict, read(PATH_DIC_QUANTIFIER), false, "Quantifier");
      assert fresh(dict.Repr);
      SetQuantifierDict(dict);
    }

    /** initial, once the singleton exists: the loads in their order. A
        missing surname, suffix or preposition file stops the loading with
        an error; the main trie is loaded before any of them. */
    method Initial(read: string -> Option<seq<string>>, walk: string -> seq<string>,
                   fetch: string -> Option<seq<Option<string>>>)
      returns (outcome: Outcome)
      requires Valid()
      modifies this`mainDict, this`quantifierDict, this`stopWords
      ensures Valid()
      ensures outcome == if read(PATH_DIC_SURNAME).None? then Fail(NotFound("Surname"))
                         else if read(PATH_DIC_SUFFIX).None? then Fail(NotFound("Suffix"))
                         else if read(PATH_DIC_PREP).None? then Fail(NotFound("Preposition"))
                         else Pass
      ensures Keys(MainWords(props, read, walk, fetch))
      ensures mainDict.View == FillAll(Leaf, MainWords(props, read, walk, fetch), 1)
      ensures read(PATH_DIC_SURNAME).Some? ==>
                (&& Keys(WordsOf(read(PATH_DIC_QUANTIFIER)))
                 && quantifierDict.View == FillAll(Leaf, WordsOf(read(PATH_DIC_QUANTIFIER)), 1))
      ensures read(PATH_DIC_SURNAME).None? ==> quantifierDict == old(quantifierDict)
      ensures outcome.Pass? ==>
                (&& Keys(StopWords(props, read, walk, fetch))
                 && stopWords.View == FillAll(Leaf, StopWords(props, read, walk, fetch), 1))
      ensures outcome.Fail? ==> stopWords == old(stopWords)
    {
      LoadMainDict(read, walk, fetch);
      outcome := LoadAfterMain(read, walk, fetch);
    }

    /** The loads of initial after loadMainDict: surname.dic must exist, then
        the quantifier trie is loaded, then the rest. The main trie is not
        touched. */
    method LoadAfterMain(read: string -> Option<seq<string>>, walk: string -> seq<string>,
                         fetch: string -> Option<seq<Option<string>>>)
      returns (outcome: Outcome)
      requires Valid()
      modifies this`quantifierDict, this`stopWords
      ensures Valid()
      ensures outcome == if read(PATH_DIC_SURNAME).None? then Fail(NotFound("Surname"))
                         else if read(PATH_DIC_SUFFIX).None? then Fail(NotFound("Suffix"))
                         else if read(PATH_DIC_PREP).None? then Fail(NotFound("Preposition"))
                         else Pass
      ensures read(PATH_DIC_SURNAME).Some? ==>
                (&& Keys(WordsOf(read(PATH_DIC_QUANTIFIER)))
                 && quantifierDict.View == FillAll(Leaf, WordsOf(read(PATH_DIC_QUANTIFIER)), 1))
      ensures read(PATH_DIC_SURNAME).None? ==> quantifierDict == old(quantifierDict)
      ensures outcome.Pass? ==>
                (&& Keys(StopWords(props, read, walk, fetch))
                 && stopWords.View == FillAll(Leaf, StopWords(props, read, walk, fetch), 1))
      ensures outcome.Fail? ==> stopWords == old(stopWords)
    {
      outcome := LoadCriticalDict(read, PATH_DIC_SURNAME, "Surname");
      if outcome.Fail? {
        return;
      }
      LoadQuantifierDict(read);
      outcome := LoadAfterQuantifier(read, walk, fetch);
    }

    /** The loads of initial after loadQuantifierDict: suffix.dic and
        preposition.dic must exist, then the stop-word trie is loaded. The
        main and quantifier tries are not touched. */
    method LoadAfterQuantifier(read: string -> Option<seq<string>>, walk: string -> seq<string>,
                               fetch: string -> Option<seq<Option<string>>>)
      returns (outcome: Outcome)
      requires Valid()
      modifies this`stopWords
      ensures Valid()
      ensures outcome == if read(PATH_DIC_SUFFIX).None? then Fail(NotFound("Suffix"))
                         else if read(PATH_DIC_PREP).None? then Fail(NotFound("Preposition"))
                         else Pass
      ensures outcome.Pass? ==>
                (&& Keys(StopWords(props, read, walk, fetch))
                 && stopWords.View == FillAll(Leaf, StopWords(props, read, walk, fetch), 1))
      ensures outcome.Fail? ==> stopWords == old(stopWords)
    {
      outcome := LoadCriticalDict(read, PATH_DIC_SUFFIX, "Suffix");
      if outcome.Fail? {
        return;
      }
      outcome := LoadCriticalDict(read, PATH_DIC_PREP, "Preposition");
      if outcome.Fail? {
        return;
      }
      LoadStopWordDict(read, walk, fetch);
    }

    /** reLoadMainDict: a fresh instance, with the properties on disk, loads
        the main and stop-word tries, which then replace this instance's; the
        quantifier trie and the properties are kept. */
    method ReLoadMainDict(disk: Properties, read: string -> Option<seq<string>>, walk: string -> seq<string>,
                          fetch: string -> Option<seq<Option<string>>>)
      requires Valid()
      modifies this`mainDict, this`stopWords
      ensures Valid() && fresh(mainDict.Repr) && fresh(stopWords.Repr)
      ensures Keys(MainWords(disk, read, walk, fetch)) && Keys(StopWords(disk, read, walk, fetch))
      ensures mainDict.View == FillAll(Leaf, MainWords(disk, read, walk, fetch), 1)
      ensures stopWords.View == FillAll(Leaf, StopWords(disk, read, walk, fetch), 1)
    {
      var main, stop := LoadFreshTries(disk, read, walk, fetch);
      SetMainDict(main);
      SetStopWords(stop);
    }

    /** The first half of reLoadMainDict: a new instance with the properties
        `disk` loads its main and stop-word tries, which are returned. */
    static method LoadFreshTries(disk: Properties, read: string -> Option<seq<string>>, walk: string -> seq<string>,
                                 fetch: string -> Option<seq<Option<string>>>)
      returns (main: DictSegment, stop: DictSegment)
      ensures Intact(main) && Intact(stop) && fresh(main.Repr) && fresh(stop.Repr) && main.Repr !! stop.Repr
      ensures Keys(MainWords(disk, read, walk, fetch)) && Keys(StopWords(disk, read, walk, fetch))
      ensures main.View == FillAll(Leaf, MainWords(disk, read, walk, fetch), 1)
      ensures stop.View == FillAll(Leaf, StopWords(disk, read, walk, fetch), 1)
    {
      var tmpDict := new Dictionary(disk);
      tmpDict.LoadMainDict(read, walk, fetch);
      tmpDict.LoadStopWordDict(read, walk, fetch);
      main, stop := tmpDict.mainDict, tmpDict.stopWords;
    }

    /** checkExtDict, with the comparison of the four dictionary properties
        made one by one (see CheckAsWritten for the code as written). */
    method CheckExtDict(folder: Option<int>, config: Option<int>, disk: Properties,
                        read: string -> Option<seq<string>>, walk: string -> seq<string>,
                        fetch: string -> Option<seq<Option<string>>>)
      requires Valid()
      modifies this`mainDict, this`stopWords, this`props
      modifies this`extDictLastModifiedTime, this`extDictConfigLastModifiedTime
      ensures Valid()
      ensures var v := Check(folder, config, Stamps(old(extDictLastModifiedTime), old(extDictConfigLastModifiedTime)),
                             old(props), disk);
              && Stamps(extDictLastModifiedTime, extDictConfigLastModifiedTime) == v.stamps
              && props == (if v.adopt then disk else old(props))
              && (v.reload ==> && Keys(MainWords(disk, read, walk, fetch)) && Keys(StopWords(disk, read, walk, fetch))
                               && mainDict.View == FillAll(Leaf, MainWords(disk, read, walk, fetch), 1)
                               && stopWords.View == FillAll(Leaf, StopWords(disk, read, walk, fetch), 1))
              && (!v.reload ==> mainDict == old(mainDict) && stopWords == old(stopWords))
    {
      if folder.None? {
        return;
      }
      if Some(folder.value) != extDictLastModifiedTime {
        FolderChanged(folder.value, config, disk, read, walk, fetch);
      } else if config.Some? && config != extDictConfigLastModifiedTime {
        ConfigChanged(config.value, disk, read, walk, fetch);
      }
    }

    /** The branch of checkExtDict where the ext-dict folder changed: its time
        is recorded; when the configuration file exists its time is recorded
        too and the tries are reloaded, and when it does not, reading its time
        throws and the exception is logged. */
    method FolderChanged(folder: int, config: Option<int>, disk: Properties,
                         read: string -> Option<seq<string>>, walk: string -> seq<string>,
                         fetch: string -> Option<seq<Option<string>>>)
      requires Valid()
      modifies this`mainDict, this`stopWords, this`extDictLastModifiedTime, this`extDictConfigLastModifiedTime
      ensures Valid() && extDictLastModifiedTime == Some(folder)
      ensures extDictConfigLastModifiedTime == if config.Some? then config else old(extDictConfigLastModifiedTime)
      ensures config.Some? ==> && Keys(MainWords(disk, read, walk, fetch)) && Keys(StopWords(disk, read, walk, fetch))
                               && mainDict.View == FillAll(Leaf, MainWords(disk, read, walk, fetch), 1)
                               && stopWords.View == FillAll(Leaf, StopWords(disk, read, walk, fetch), 1)
      ensures config.None? ==> mainDict == old(mainDict) && stopWords == old(stopWords)
    {
      extDictLastModifiedTime := Some(folder);
      if config.Some? {
        extDictConfigLastModifiedTime := config;
        ReLoadMainDict(disk, read, walk, fetch);
      }
    }

    /** The branch of checkExtDict where only the configuration file changed:
        its time is recorded, and when a dictionary property differs the
        properties on disk are adopted and the tries reloaded. */
    method ConfigChanged(config: int, disk: Properties,
                         read: string -> Option<seq<string>>, walk: string -> seq<string>,
                         fetch: string -> Option<seq<Option<string>>>)
      requires Valid()
      modifies this`mainDict, this`stopWords, this`props, this`extDictConfigLastModifiedTime
      ensures Valid() && extDictConfigLastModifiedTime == Some(config)
      ensures var changed := DictSettings(disk) != DictSettings(old(props));
              && props == (if changed then disk else old(props))
              && (changed ==> && Keys(MainWords(disk, read, walk, fetch)) && Keys(StopWords(disk, read, walk, fetch))
                              && mainDict.View == FillAll(Leaf, MainWords(disk, read, walk, fetch), 1)
                              && stopWords.View == FillAll(Leaf, StopWords(disk, read, walk, fetch), 1))
              && (!changed ==> mainDict == old(mainDict) && stopWords == old(stopWords))
    {
      extDictConfigLastModifiedTime := Some(config);
      if DictSettings(disk) != DictSettings(props) {
        props := disk;
        ReLoadMainDict(disk, read, walk, fetch);
      }
    }
  }
}
