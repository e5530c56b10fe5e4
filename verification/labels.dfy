/** Normalisation of audience segment labels: split on runs of whitespace or
    dashes, capitalise every word, join with single spaces. Splitting follows
    `String.prototype.split` with the pattern `/[\s-]+/`, including the empty
    first or last word a leading or trailing separator run produces. Case
    mapping is modelled on ASCII letters only. */
module Labels {
  import opened Sorting

  /** A character matched by `[\s-]`: the dash or an ECMAScript white-space
      or line-terminator character. */
  predicate IsSep(c: char) {
    || c == '-' || c == ' ' || c == '\t' || c == '\n' || c == '\r'
    || c == '\U{0B}' || c == '\U{0C}' || c == '\U{A0}' || c == '\U{1680}'
    || ('\U{2000}' <= c <= '\U{200A}')
    || c == '\U{2028}' || c == '\U{2029}' || c == '\U{202F}' || c == '\U{205F}'
    || c == '\U{3000}' || c == '\U{FEFF}'
  }

  /** No character of `w` is a separator. */
  predicate SepFree(w: string) {
    forall i :: 0 <= i < |w| ==> !IsSep(w[i])
  }

  /** Length of the longest separator-free prefix of `s`. */
  function WordLength(s: string): (n: nat)
    ensures n <= |s|
    ensures SepFree(s[..n])
    ensures n < |s| ==> IsSep(s[n])
  {
    if |s| == 0 || IsSep(s[0]) then 0
    else
      var k := WordLength(s[1..]);
      assert s[..k + 1] == [s[0]] + s[1..][..k];
      k + 1
  }

  /** `s` without its leading run of separators. */
  function DropSeps(s: string): (r: string)
    ensures |r| <= |s| && r == s[|s| - |r|..]
    ensures forall i :: 0 <= i < |s| - |r| ==> IsSep(s[i])
    ensures |r| > 0 ==> !IsSep(r[0])
  {
    if |s| > 0 && IsSep(s[0]) then DropSeps(s[1..]) else s
  }

  /** The pieces between maximal separator runs, as
      `s.split(/[\s-]+/)` returns them. */
  function Words(s: string): (ws: seq<string>)
    decreases |s|
  {
    var n := WordLength(s);
    if n == |s| then [s]
    else
      assert IsSep(s[n..][0]);
      [s[..n]] + Words(DropSeps(s[n..]))
  }

  /** The shape every split result has: at least one word, no word contains a
      separator, and only the first and the last word can be empty. */
  ghost predicate WellSplit(ws: seq<string>) {
    && |ws| >= 1
    && (forall i :: 0 <= i < |ws| ==> SepFree(ws[i]))
    && (forall i :: 0 < i < |ws| - 1 ==> ws[i] != "")
  }

  /** The words joined with one space between neighbours (`join(' ')`). */
  function Join(ws: seq<string>): string
    requires |ws| >= 1
  {
    if |ws| == 1 then ws[0] else ws[0] + " " + Join(ws[1..])
  }

  predicate IsLower(c: char) { 'a' <= c <= 'z' }
  predicate IsUpper(c: char) { 'A' <= c <= 'Z' }

  function ToUpper(c: char): (u: char)
    ensures !IsLower(u)
    ensures IsLower(c) || u == c
  {
    if IsLower(c) then (c as int - 32) as char else c
  }

  function ToLower(c: char): (l: char)
    ensures !IsUpper(l)
    ensures IsUpper(c) || l == c
  {
    if IsUpper(c) then (c as int + 32) as char else c
  }

  function LowerAll(w: string): (r: string)
    ensures |r| == |w|
    ensures forall i :: 0 <= i < |w| ==> r[i] == ToLower(w[i])
  {
    if |w| == 0 then "" else [ToLower(w[0])] + LowerAll(w[1..])
  }

  /** `word.charAt(0).toUpperCase() + word.slice(1).toLowerCase()`. */
  function Capitalise(w: string): (r: string)
    ensures |r| == |w|
    ensures |w| > 0 ==> r[0] == ToUpper(w[0])
    ensures forall i :: 1 <= i < |w| ==> r[i] == ToLower(w[i])
  {
    if |w| == 0 then "" else [ToUpper(w[0])] + LowerAll(w[1..])
  }

  /** A word already in capitalised form: no lower-case first letter and no
      upper-case letter after it. */
  predicate IsCapitalised(w: string) {
    (|w| == 0 || !IsLower(w[0])) && forall i :: 1 <= i < |w| ==> !IsUpper(w[i])
  }

  function MapCapitalise(ws: seq<string>): (r: seq<string>)
    ensures |r| == |ws|
    ensures forall i :: 0 <= i < |ws| ==> r[i] == Capitalise(ws[i])
  {
    seq(|ws|, i requires 0 <= i < |ws| => Capitalise(ws[i]))
  }

  /** The normalised label shown for a server-supplied segment. */
  function Normalise(segment: string): string {
    var ws := Words(segment);
    WordsWellSplit(segment);
    Join(MapCapitalise(ws))
  }

  /** Every segment normalised, in reply order. */
  function NormaliseAll(segments: seq<string>): (r: seq<string>)
    ensures |r| == |segments|
    ensures forall i :: 0 <= i < |segments| ==> r[i] == Normalise(segments[i])
  {
    seq(|segments|, i requires 0 <= i < |segments| => Normalise(segments[i]))
  }

  /** The audience list built from a reply's segments: every segment
      normalised, then sorted with the default string order. */
  function SortedLabels(segments: seq<string>): (r: seq<string>)
    ensures multiset(r) == multiset(NormaliseAll(segments))
    ensures Sorted(r, StrLe)
  {
    StrLeIsTotalPreorder();
    SortBySorted(NormaliseAll(segments), StrLe);
    SortBy(NormaliseAll(segments), StrLe)
  }

  // ---------------------------------------------------------------------
  // Properties

  /** Splitting yields separator-free words of which only the ends may be
      empty. */
  lemma {:induction false} WordsWellSplit(s: string)
    decreases |s|
    ensures WellSplit(Words(s))
  {
    var n := WordLength(s);
    if n == |s| {
      assert Words(s) == [s];
      assert s[..n] == s;
    } else {
      var rest := DropSeps(s[n..]);
      var tws := Words(rest);
      assert Words(s) == [s[..n]] + tws;
      WordsWellSplit(rest);
      assert |tws| > 1 ==> tws[0] != "" by {
        if |tws| > 1 {
          FirstWordNonEmpty(rest);
        }
      }
      WellSplitCons(s[..n], tws);
    }
  }

  /** A string that does not start with a separator and splits into more
      than one word has a non-empty first word. */
  lemma FirstWordNonEmpty(r: string)
    requires |r| > 0 ==> !IsSep(r[0])
    requires |Words(r)| > 1
    ensures Words(r)[0] != ""
  {
    var n := WordLength(r);
    assert n < |r|;
    assert Words(r)[0] == r[..n];
  }

  lemma WellSplitCons(w: string, tws: seq<string>)
    requires SepFree(w) && WellSplit(tws)
    requires |tws| > 1 ==> tws[0] != ""
    ensures WellSplit([w] + tws)
  {
    var ws := [w] + tws;
    forall i | 0 < i < |ws| ensures ws[i] == tws[i - 1] {
    }
  }

  /** Splitting a joined well-split word list gives the words back. */
  lemma {:induction false} WordsOfJoin(ws: seq<string>)
    requires WellSplit(ws)
    ensures Words(Join(ws)) == ws
  {
    if |ws| == 1 {
      SepFreeWordLength(ws[0]);
    } else {
      var tail := ws[1..];
      WellSplitTail(ws);
      WordsOfJoin(tail);
      JoinHead(tail);
      assert IsSep(' ');
      WordsSplitAt(ws[0], ' ', Join(tail));
      assert Join(ws) == ws[0] + " " + Join(tail);
    }
  }

  /** Dropping the first word of a well-split list leaves a well-split list
      whose first word is empty only if it is also the last. */
  lemma WellSplitTail(ws: seq<string>)
    requires WellSplit(ws) && |ws| > 1
    ensures WellSplit(ws[1..])
    ensures |ws| > 2 ==> ws[1..][0] != ""
  {
    var tail := ws[1..];
    forall i | 0 <= i < |tail| ensures tail[i] == ws[i + 1] {
    }
  }

  /** A join of well-split words starts with a separator only if it is empty. */
  lemma JoinHead(ws: seq<string>)
    requires |ws| >= 1 && SepFree(ws[0])
    requires |ws| > 1 ==> ws[0] != ""
    ensures |Join(ws)| > 0 ==> !IsSep(Join(ws)[0])
  {
    if ws[0] != "" {
      assert Join(ws)[0] == ws[0][0];
    }
  }

  /** Splitting `w + [c] + t` for a separator-free `w`, a separator `c` and
      a `t` that does not start with a separator yields `w` followed by the
      words of `t`. */
  lemma WordsSplitAt(w: string, c: char, t: string)
    requires SepFree(w) && IsSep(c)
    requires |t| > 0 ==> !IsSep(t[0])
    ensures Words(w + [c] + t) == [w] + Words(t)
  {
    var s := w + [c] + t;
    SepFreePrefixLength(w, [c] + t);
    assert s == w + ([c] + t);
    assert WordLength(s) == |w|;
    assert s[..|w|] == w;
    assert s[|w|..] == [c] + t;
    assert DropSeps([c] + t) == DropSeps(t) by {
      assert ([c] + t)[1..] == t;
    }
    assert DropSeps(t) == t;
  }

  lemma SepFreeWordLength(w: string)
    requires SepFree(w)
    ensures WordLength(w) == |w|
    ensures Words(w) == [w]
  {
    SepFreePrefixLength(w, "");
    assert w + "" == w;
  }

  /** The longest separator-free prefix of `w + rest` is `w` when `w` has no
      separator and `rest` starts with one (or is empty). */
  lemma {:induction false} SepFreePrefixLength(w: string, rest: string)
    requires SepFree(w)
    requires |rest| == 0 || IsSep(rest[0])
    ensures WordLength(w + rest) == |w|
  {
    if |w| > 0 {
      assert (w + rest)[1..] == w[1..] + rest;
      SepFreePrefixLength(w[1..], rest);
    } else {
      assert w + rest == rest;
    }
  }

  /** A joined list starts with its first word. */
  lemma JoinStartsWithWord(ws: seq<string>)
    requires |ws| >= 1
    ensures |Join(ws)| >= |ws[0]|
    ensures Join(ws)[..|ws[0]|] == ws[0]
    ensures |ws| == 1 ==> Join(ws) == ws[0]
  {
  }

  /** The ASCII case model preserves which characters are separators. */
  lemma CaseKeepsSep(c: char)
    ensures IsSep(ToUpper(c)) == IsSep(c)
    ensures IsSep(ToLower(c)) == IsSep(c)
  {
  }

  /** Capitalising a word keeps it separator-free and keeps it non-empty. */
  lemma CapitaliseKeepsShape(ws: seq<string>)
    requires WellSplit(ws)
    ensures WellSplit(MapCapitalise(ws))
  {
    var cs := MapCapitalise(ws);
    forall i | 0 <= i < |cs| ensures SepFree(cs[i]) {
      forall k | 0 <= k < |cs[i]| ensures !IsSep(cs[i][k]) {
        CaseKeepsSep(ws[i][k]);
      }
    }
    forall i | 0 < i < |cs| - 1 ensures cs[i] != "" {
      assert |cs[i]| == |ws[i]|;
    }
  }

  /** Splitting a normalised label gives back exactly the capitalised words
      of the original split: the word count is preserved and every word is
      its first character upper-cased followed by the rest lower-cased. */
  lemma NormaliseWords(segment: string)
    ensures Words(Normalise(segment)) == MapCapitalise(Words(segment))
  {
    WordsWellSplit(segment);
    CapitaliseKeepsShape(Words(segment));
    WordsOfJoin(MapCapitalise(Words(segment)));
  }

  /** The normalised label contains no dash and no white space other than the
      single spaces between words, and every word is capitalised. */
  lemma NormaliseShape(segment: string)
    ensures forall i :: 0 <= i < |Normalise(segment)| ==>
      Normalise(segment)[i] != '-' && (IsSep(Normalise(segment)[i]) ==> Normalise(segment)[i] == ' ')
    ensures |Words(Normalise(segment))| == |Words(segment)|
    ensures forall w :: w in Words(Normalise(segment)) ==> IsCapitalised(w)
  {
    var ws := MapCapitalise(Words(segment));
    WordsWellSplit(segment);
    CapitaliseKeepsShape(Words(segment));
    JoinSeparators(ws);
    NormaliseWords(segment);
    forall w | w in ws ensures IsCapitalised(w) {
      var i :| 0 <= i < |ws| && ws[i] == w;
      CapitaliseIsCapitalised(Words(segment)[i]);
    }
  }

  /** The only separators in a join of separator-free words are the joining
      spaces. */
  lemma {:induction false} JoinSeparators(ws: seq<string>)
    requires |ws| >= 1 && forall i :: 0 <= i < |ws| ==> SepFree(ws[i])
    ensures forall i :: 0 <= i < |Join(ws)| && IsSep(Join(ws)[i]) ==> Join(ws)[i] == ' '
  {
    if |ws| > 1 {
      JoinSeparators(ws[1..]);
      var t := Join(ws[1..]);
      var s := ws[0] + " " + t;
      forall i | 0 <= i < |s| ensures IsSep(s[i]) ==> s[i] == ' ' {
        if i < |ws[0]| {
          assert s[i] == ws[0][i];
          assert !IsSep(s[i]);
        } else if i > |ws[0]| {
          assert s[i] == t[i - |ws[0]| - 1];
        }
      }
    }
  }

  lemma CapitaliseIsCapitalised(w: string)
    ensures IsCapitalised(Capitalise(w))
  {
  }

  lemma CapitaliseIdempotent(w: string)
    ensures Capitalise(Capitalise(w)) == Capitalise(w)
  {
    var c := Capitalise(w);
    var cc := Capitalise(c);
    assert |cc| == |c|;
    forall i | 0 <= i < |c| ensures cc[i] == c[i] {
    }
  }

  /** Normalising a normalised label changes nothing. */
  lemma NormaliseIdempotent(segment: string)
    ensures Normalise(Normalise(segment)) == Normalise(segment)
  {
    var ws := Words(segment);
    var cs := MapCapitalise(ws);
    NormaliseWords(segment);
    assert Words(Normalise(segment)) == cs;
    var ccs := MapCapitalise(cs);
    forall i | 0 <= i < |cs| ensures ccs[i] == cs[i] {
      CapitaliseIdempotent(ws[i]);
    }
    assert ccs == cs;
  }

  /** A concrete label: the dash becomes a single space and both words are
      capitalised. */
  lemma NormaliseExample()
    ensures Normalise("gen-z") == "Gen Z"
  {
    ExampleWords();
    ExampleCapitals();
    ExampleJoin();
    var ws := Words("gen-z");
    assert MapCapitalise(ws) == ["Gen", "Z"];
  }

  lemma ExampleJoin()
    ensures Join(["Gen", "Z"]) == "Gen Z"
  {
  }

  lemma ExampleWords()
    ensures Words("gen-z") == ["gen", "z"]
  {
    ExampleSepFree();
    assert "gen-z" == "gen" + ['-'] + "z";
    WordsSplitAt("gen", '-', "z");
    SepFreeWordLength("z");
  }

  lemma ExampleSepFree()
    ensures SepFree("gen") && SepFree("z") && IsSep('-')
  {
  }

  lemma ExampleCapitals()
    ensures MapCapitalise(["gen", "z"]) == ["Gen", "Z"]
  {
    assert ToUpper('g') == 'G' && ToUpper('z') == 'Z';
    assert LowerAll("en") == "en";
    assert Capitalise("gen") == "Gen";
    assert Capitalise("z") == "Z";
  }
}
