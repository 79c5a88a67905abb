// The text handling of the dictionary loaders: Java's String.trim, the
// byte-order mark of a dictionary file's first line, the lower-casing of
// remote words, and the `;`-separated lists of the configuration file.
module WordLists {
  import opened Wrappers

  /** The byte-order mark a UTF-8 dictionary file may start with. */
  const BOM: char := '\U{FEFF}'

  /** The characters String.trim removes: every code unit up to U+0020. */
  predicate IsSpace(c: char)
  {
    c <= ' '
  }

  /** Neither end of `s` is a character String.trim removes. */
  predicate Trimmed(s: string)
  {
    s == [] || (!IsSpace(s[0]) && !IsSpace(s[|s| - 1]))
  }

  /** `s` without its leading spaces. */
  function TrimLeft(s: string): string
    decreases |s|
  {
    if s != [] && IsSpace(s[0]) then TrimLeft(s[1..]) else s
  }

  /** `s` without its trailing spaces. */
  function TrimRight(s: string): string
    decreases |s|
  {
    if s != [] && IsSpace(s[|s| - 1]) then TrimRight(s[..|s| - 1]) else s
  }

  /** TrimLeft keeps a suffix of `s` that starts with no space and cuts
      only spaces. */
  lemma {:induction false} TrimLeftMeaning(s: string)
    ensures |TrimLeft(s)| <= |s| && TrimLeft(s) == s[|s| - |TrimLeft(s)|..]
    ensures TrimLeft(s) == [] || !IsSpace(TrimLeft(s)[0])
    ensures forall i | 0 <= i < |s| - |TrimLeft(s)| :: IsSpace(s[i])
    decreases |s|
  {
    if s != [] && IsSpace(s[0]) {
      TrimLeftMeaning(s[1..]);
    }
  }

  /** TrimRight keeps a prefix of `s` that ends with no space and cuts
      only spaces. */
  lemma {:induction false} TrimRightMeaning(s: string)
    ensures |TrimRight(s)| <= |s| && TrimRight(s) == s[..|TrimRight(s)|]
    ensures TrimRight(s) == [] || !IsSpace(TrimRight(s)[|TrimRight(s)| - 1])
    ensures forall i | |TrimRight(s)| <= i < |s| :: IsSpace(s[i])
    decreases |s|
  {
    if s != [] && IsSpace(s[|s| - 1]) {
      TrimRightMeaning(s[..|s| - 1]);
    }
  }

  /** String.trim: no longer than `s`, and with no space left at either end. */
  function Trim(s: string): (r: string)
    ensures |r| <= |s| && Trimmed(r)
  {
    var l := TrimLeft(s);
    TrimLeftMeaning(s);
    TrimRightMeaning(l);
    var r := TrimRight(l);
    assert r != [] ==> r[0] == l[0];
    r
  }

  /** Trim cuts only spaces, and only from the two ends: what it keeps is
      one slice of `s`. */
  lemma TrimMeaning(s: string)
    ensures exists i, j | 0 <= i <= j <= |s| ::
              && Trim(s) == s[i..j]
              && (forall k | 0 <= k < i :: IsSpace(s[k]))
              && (forall k | j <= k < |s| :: IsSpace(s[k]))
  {
    var l := TrimLeft(s);
    var r := TrimRight(l);
    TrimLeftMeaning(s);
    TrimRightMeaning(l);
    var i := |s| - |l|;
    var j := i + |r|;
    assert r == s[i..j];
  }

  /** A string with no space at either end is its own trim. */
  lemma TrimOfTrimmed(s: string)
    requires Trimmed(s)
    ensures Trim(s) == s
  {
    assert TrimLeft(s) == s;
    if s != [] {
      assert TrimRight(s) == s;
    }
  }

  /** Trimming twice is trimming once. */
  lemma TrimIdempotent(s: string)
    ensures Trim(Trim(s)) == Trim(s)
  {
    TrimMeaning(s);
    TrimOfTrimmed(Trim(s));
  }

  /** `"".equals(s.trim())` holds exactly for a string of spaces. */
  lemma TrimEmpty(s: string)
    ensures Trim(s) == [] <==> forall k | 0 <= k < |s| :: IsSpace(s[k])
  {
    var l := TrimLeft(s);
    TrimLeftMeaning(s);
    TrimRightMeaning(l);
    if l != [] {
      assert !IsSpace(l[0]);
    }
  }

  /** A trimmed piece of `s` has no character `s` does not have. */
  lemma TrimInside(s: string, c: char)
    requires c !in s
    ensures c !in Trim(s)
  {
    TrimMeaning(s);
  }

  /** String.toLowerCase on one character (ASCII letters only). */
  function LowerChar(c: char): char
  {
    if 'A' <= c <= 'Z' then (c as int + 32) as char else c
  }

  /** String.toLowerCase (ASCII letters only). */
  function Lower(s: string): (r: string)
    ensures |r| == |s| && NoCapitals(r)
  {
    var r := seq(|s|, i requires 0 <= i < |s| => LowerChar(s[i]));
    assert NoCapitals(r) by {
      forall k | 0 <= k < |s| {
        LowerCharMeaning(s[k]);
      }
    }
    r
  }

  /** A string with no ASCII capital in it. */
  predicate NoCapitals(s: string)
  {
    forall k | 0 <= k < |s| :: !('A' <= s[k] <= 'Z')
  }

  /** Lower-casing keeps a trimmed string trimmed (spaces are not letters),
      so lower-casing again or trimming again changes nothing. */
  lemma LowerMeaning(s: string)
    ensures Lower(Lower(s)) == Lower(s)
    ensures Trimmed(s) ==> Trimmed(Lower(s)) && Trim(Lower(s)) == Lower(s)
  {
    var r := Lower(s);
    forall k | 0 <= k < |s|
      ensures !('A' <= r[k] <= 'Z') && LowerChar(r[k]) == r[k] && (IsSpace(r[k]) <==> IsSpace(s[k]))
    {
      LowerCharMeaning(s[k]);
    }
    if Trimmed(s) {
      TrimOfTrimmed(r);
    }
  }

  /** One character lower-cased: no capital, a fixed point, a space exactly
      when the character was. */
  lemma LowerCharMeaning(c: char)
    ensures !('A' <= LowerChar(c) <= 'Z') && LowerChar(LowerChar(c)) == LowerChar(c)
    ensures IsSpace(LowerChar(c)) <==> IsSpace(c)
  {
  }

  /** The first line of a dictionary file loses one leading byte-order mark. */
  function StripBom(line: string): (r: string)
    ensures |line| > 0 && line[0] == BOM ==> line == [BOM] + r
    ensures !(|line| > 0 && line[0] == BOM) ==> r == line
  {
    if |line| > 0 && line[0] == BOM then line[1..] else line
  }

  /** The lines a dictionary file is read as, with the mark stripped from
      the first one only. */
  function Debom(lines: seq<string>): (r: seq<string>)
    ensures |r| == |lines|
    ensures forall k | 1 <= k < |lines| :: r[k] == lines[k]
  {
    if lines == [] then [] else [StripBom(lines[0])] + lines[1..]
  }

  /** What is kept of one line or one configured entry: nothing when it is
      blank, else the entry itself, trimmed when `trimmed`. */
  function Keep(p: string, trimmed: bool): seq<string>
  {
    if Trim(p) == [] then [] else [if trimmed then Trim(p) else p]
  }

  /** Every non-blank item of `ps`, in order, as `Keep` keeps it. */
  function Retained(ps: seq<string>, trimmed: bool): (r: seq<string>)
    ensures |r| <= |ps|
    decreases |ps|
  {
    if ps == [] then [] else Retained(ps[..|ps| - 1], trimmed) + Keep(ps[|ps| - 1], trimmed)
  }

  /** The step of a loop over `ps`. */
  lemma RetainedStep(ps: seq<string>, i: int, trimmed: bool)
    requires 0 <= i < |ps|
    ensures Retained(ps[..i + 1], trimmed) == Retained(ps[..i], trimmed) + Keep(ps[i], trimmed)
  {
    assert ps[..i + 1][..i] == ps[..i];
  }

  /** What is retained of a concatenation is what is retained of each part. */
  lemma {:induction false} RetainedAppend(a: seq<string>, b: seq<string>, trimmed: bool)
    ensures Retained(a + b, trimmed) == Retained(a, trimmed) + Retained(b, trimmed)
    decreases |b|
  {
    if b == [] {
      assert a + b == a;
    } else {
      assert (a + b)[..|a + b| - 1] == a + b[..|b| - 1];
      RetainedAppend(a, b[..|b| - 1], trimmed);
    }
  }

  /** Every retained item is non-blank; trimmed ones have no space at
      either end. */
  lemma {:induction false} RetainedShape(ps: seq<string>, trimmed: bool)
    ensures forall e | e in Retained(ps, trimmed) :: Trim(e) != []
    ensures trimmed ==> forall e | e in Retained(ps, trimmed) :: Trim(e) == e
    decreases |ps|
  {
    if ps != [] {
      RetainedShape(ps[..|ps| - 1], trimmed);
      TrimIdempotent(ps[|ps| - 1]);
    }
  }

  /** A retained item holds no character none of `ps` holds. */
  lemma {:induction false} RetainedAvoids(ps: seq<string>, trimmed: bool, c: char)
    requires forall k | 0 <= k < |ps| :: c !in ps[k]
    ensures forall e | e in Retained(ps, trimmed) :: c !in e
    decreases |ps|
  {
    if ps != [] {
      RetainedAvoids(ps[..|ps| - 1], trimmed, c);
      TrimInside(ps[|ps| - 1], c);
    }
  }

  /** The words `loadDictFile` adds, from the lines of the file: the first
      line loses its byte-order mark, every line is trimmed, and blank lines
      are skipped. Nothing is lower-cased. */
  function FileWords(lines: seq<string>): (r: seq<string>)
    ensures |r| <= |lines|
    ensures forall w | w in r :: w != [] && Trim(w) == w
  {
    RetainedShape(Debom(lines), true);
    Retained(Debom(lines), true)
  }

  /** The byte-order mark is stripped from the first line only: the words of
      the file are those of its first line, then those of the rest, read as
      they are. */
  lemma FileWordsSplit(lines: seq<string>)
    requires |lines| >= 1
    ensures FileWords(lines) == Keep(StripBom(lines[0]), true) + Retained(lines[1..], true)
  {
    var first := StripBom(lines[0]);
    assert Debom(lines) == [first] + lines[1..];
    RetainedAppend([first], lines[1..], true);
    RetainedOne(first, true);
  }

  /** What is retained of one item is what is kept of it. */
  lemma RetainedOne(p: string, trimmed: bool)
    ensures Retained([p], trimmed) == Keep(p, trimmed)
  {
    assert [p][..0] == [];
  }

  /** `s.split(sep)` before Java drops the trailing empty strings: every
      piece between two separators, empty ones included. */
  function SplitAll(s: string, sep: char): (r: seq<string>)
    ensures |r| >= 1
    ensures forall k | 0 <= k < |r| :: sep !in r[k]
    decreases |s|
  {
    if s == [] then [[]]
    else
      var rest := SplitAll(s[1..], sep);
      if s[0] == sep then [[]] + rest else [[s[0]] + rest[0]] + rest[1..]
  }

  /** The pieces put back together with `sep` between them. */
  function Join(ps: seq<string>, sep: char): string
    requires |ps| >= 1
    decreases |ps|
  {
    if |ps| == 1 then ps[0] else ps[0] + [sep] + Join(ps[1..], sep)
  }

  /** Splitting loses nothing: joining the pieces gives `s` back. */
  lemma {:induction false} JoinSplit(s: string, sep: char)
    ensures Join(SplitAll(s, sep), sep) == s
    decreases |s|
  {
    if s != [] {
      var rest := SplitAll(s[1..], sep);
      JoinSplit(s[1..], sep);
      if s[0] == sep {
        assert ([[]] + rest)[1..] == rest;
      } else {
        var r := [[s[0]] + rest[0]] + rest[1..];
        if |rest| > 1 {
          assert r[1..] == rest[1..];
        }
      }
    }
  }

  /** A piece without `sep`, followed by `sep`, starts a new piece. */
  lemma {:induction false} SplitFirst(a: string, sep: char, rest: string, more: bool)
    requires sep !in a
    ensures more ==> SplitAll(a + [sep] + rest, sep) == [a] + SplitAll(rest, sep)
    ensures !more ==> SplitAll(a, sep) == [a]
    decreases |a|
  {
    if a == [] {
      if more {
        assert ([] + [sep] + rest)[1..] == rest;
      }
    } else {
      SplitFirst(a[1..], sep, rest, more);
      if more {
        assert (a + [sep] + rest)[1..] == a[1..] + [sep] + rest;
        assert [a[0]] + a[1..] == a;
      } else {
        assert [a[0]] + a[1..] == a;
      }
    }
  }

  /** Joining pieces free of `sep` and splitting again gives the pieces. */
  lemma {:induction false} SplitJoin(ps: seq<string>, sep: char)
    requires |ps| >= 1 && forall k | 0 <= k < |ps| :: sep !in ps[k]
    ensures SplitAll(Join(ps, sep), sep) == ps
    decreases |ps|
  {
    if |ps| == 1 {
      SplitFirst(ps[0], sep, [], false);
    } else {
      SplitJoin(ps[1..], sep);
      SplitFirst(ps[0], sep, Join(ps[1..], sep), true);
    }
  }

  /** `ps` without its trailing empty strings. */
  function DropTrailingEmpty(ps: seq<string>): (r: seq<string>)
    ensures r <= ps
    ensures forall k | |r| <= k < |ps| :: ps[k] == []
    ensures r == [] || r[|r| - 1] != []
    decreases |ps|
  {
    if ps != [] && ps[|ps| - 1] == [] then DropTrailingEmpty(ps[..|ps| - 1]) else ps
  }

  /** String.split(sep): no match gives the whole string; trailing empty
      strings are removed, unless the input is itself empty. */
  function JavaSplit(s: string, sep: char): (r: seq<string>)
    ensures forall k | 0 <= k < |r| :: sep !in r[k]
    ensures s != [] ==> r <= SplitAll(s, sep) && (r == [] || r[|r| - 1] != [])
    ensures s != [] ==> forall k | |r| <= k < |SplitAll(s, sep)| :: SplitAll(s, sep)[k] == []
  {
    if s == [] then [[]] else DropTrailingEmpty(SplitAll(s, sep))
  }

  /** Dropped pieces are blank, so the entries kept from a configuration
      value are those of every piece between two separators. */
  lemma JavaSplitRetained(s: string, sep: char, trimmed: bool)
    ensures Retained(JavaSplit(s, sep), trimmed) == Retained(SplitAll(s, sep), trimmed)
  {
    if s != [] {
      var ps := SplitAll(s, sep);
      var r := DropTrailingEmpty(ps);
      assert ps == r + ps[|r|..];
      RetainedAppend(r, ps[|r|..], trimmed);
      EmptiesRetainNothing(ps[|r|..], trimmed);
    }
  }

  /** Nothing is retained of empty strings. */
  lemma {:induction false} EmptiesRetainNothing(ps: seq<string>, trimmed: bool)
    requires forall k | 0 <= k < |ps| :: ps[k] == []
    ensures Retained(ps, trimmed) == []
    decreases |ps|
  {
    if ps != [] {
      EmptiesRetainNothing(ps[..|ps| - 1], trimmed);
    }
  }

  /** The entries a `;`-separated configuration value lists, as the
      `get...Dictionarys` methods select them: the non-blank pieces, trimmed
      for local files and as written for remote locations. An absent
      property lists nothing. */
  function ConfigEntries(cfg: Option<string>, trimmed: bool): (r: seq<string>)
    ensures cfg.None? ==> r == []
    ensures forall e | e in r :: Trim(e) != [] && ';' !in e
    ensures trimmed ==> forall e | e in r :: Trim(e) == e
  {
    if cfg.None? then []
    else
      JavaSplitRetained(cfg.value, ';', trimmed);
      RetainedShape(SplitAll(cfg.value, ';'), trimmed);
      RetainedAvoids(SplitAll(cfg.value, ';'), trimmed, ';');
      Retained(JavaSplit(cfg.value, ';'), trimmed)
  }

  /** Entries that are kept as they are. */
  lemma {:induction false} RetainedKeepsClean(es: seq<string>)
    requires forall k | 0 <= k < |es| :: Trim(es[k]) == es[k] && es[k] != []
    ensures Retained(es, true) == es
    decreases |es|
  {
    if es != [] {
      RetainedKeepsClean(es[..|es| - 1]);
      assert es == es[..|es| - 1] + [es[|es| - 1]];
    }
  }

  /** Listing trimmed, non-empty file names without `;`, joined by `;`,
      configures exactly those names. */
  lemma ConfigEntriesJoin(es: seq<string>)
    requires |es| >= 1
    requires forall k | 0 <= k < |es| :: es[k] != [] && Trim(es[k]) == es[k] && ';' !in es[k]
    ensures ConfigEntries(Some(Join(es, ';')), true) == es
  {
    var s := Join(es, ';');
    SplitJoin(es, ';');
    JavaSplitRetained(s, ';', true);
    RetainedKeepsClean(es);
  }

  /** The words `loadRemoteExtDict` adds from one fetched list: entries that
      are present and not blank, trimmed and lower-cased. At most one word
      comes from each entry, and every word is non-empty, trimmed and free of
      capitals. */
  function RemoteWords(list: seq<Option<string>>): (r: seq<string>)
    ensures |r| <= |list|
    ensures forall w | w in r :: w != [] && Trim(w) == w && NoCapitals(w)
    decreases |list|
  {
    if list == [] then []
    else
      var w := list[|list| - 1];
      RemoteWords(list[..|list| - 1]) +
        (if w.Some? && Trim(w.value) != [] then LowerMeaning(Trim(w.value)); [Lower(Trim(w.value))] else [])
  }

  /** The keys `addWords` and `disableWords` pass on: every present word,
      trimmed. Blank words are not skipped, so a key is non-empty only when
      no present word is blank. */
  function PresentWords(words: seq<Option<string>>): (r: seq<string>)
    ensures |r| <= |words|
    ensures forall w | w in r :: Trimmed(w)
    ensures NoBlankWords(words) ==> forall w | w in r :: w != []
    decreases |words|
  {
    if words == [] then []
    else
      var w := words[|words| - 1];
      PresentWords(words[..|words| - 1]) + (if w.Some? then [Trim(w.value)] else [])
  }

  /** Every present word is non-blank after trimming. */
  predicate NoBlankWords(words: seq<Option<string>>)
  {
    forall k | 0 <= k < |words| && words[k].Some? :: Trim(words[k].value) != []
  }

}
