/** The tiny regular-expression matcher of the `find` utility.

    Pattern and text are C strings; a `string` here holds the characters
    before the terminating NUL, so "end of text" is the end of the sequence.
    The matcher understands `c`, `.`, `c*`, a leading `^` and a trailing `$`.
 */
module Find {

  // ---------------------------------------------------------------------
  // The matcher as written
  // ---------------------------------------------------------------------

  /** `match`: a leading `^` anchors at the start of the text; otherwise
      every suffix of the text is tried, the empty one included. */
  function Match(re: string, text: string): bool
  {
    if |re| > 0 && re[0] == '^' then MatchHere(re[1..], text)
    else MatchAnywhere(re, text)
  }

  /** The do-while loop of `match`: try `text`, then drop one character
      and retry, stopping after the empty suffix. */
  function MatchAnywhere(re: string, text: string): bool
    decreases |text|
  {
    MatchHere(re, text) || (|text| > 0 && MatchAnywhere(re, text[1..]))
  }

  /** `matchhere`: does `re` match a prefix of `text`?  A starred atom is
      looked at before `$` and literals. */
  function MatchHere(re: string, text: string): bool
    decreases |re|, |text|, 1
  {
    if re == [] then true
    else if |re| >= 2 && re[1] == '*' then MatchStar(re[0], re[2..], text)
    else if re[0] == '$' && |re| == 1 then text == []
    else if |text| > 0 && (re[0] == '.' || re[0] == text[0]) then MatchHere(re[1..], text[1..])
    else false
  }

  /** `matchstar`: `c*` followed by `re`; the shortest expansion is tried
      first, and the loop stops at the end of the text or at the first
      character that `c` does not match. */
  function MatchStar(c: char, re: string, text: string): bool
    decreases |re| + 1, |text|, 0
  {
    MatchHere(re, text) || (|text| > 0 && (text[0] == c || c == '.') && MatchStar(c, re, text[1..]))
  }

  // ---------------------------------------------------------------------
  // An independent semantics: patterns as atom sequences
  // ---------------------------------------------------------------------

  /** One atom of a pattern; `Star('.')` repeats any character. */
  datatype Atom = Lit(c: char) | AnyChar | Star(c: char)

  /** A parsed pattern: the atoms and whether it ends with the `$` anchor. */
  datatype Pattern = Pattern(atoms: seq<Atom>, anchored: bool)

  /** Reads a pattern with the matcher's priorities: `x*` first, then a
      final `$`, then `.`, then any other character as a literal. */
  function Parse(re: string): (p: Pattern)
    decreases |re|
  {
    if re == [] then Pattern([], false)
    else if |re| >= 2 && re[1] == '*' then
      var rest := Parse(re[2..]); Pattern([Star(re[0])] + rest.atoms, rest.anchored)
    else if re[0] == '$' && |re| == 1 then Pattern([], true)
    else
      var rest := Parse(re[1..]);
      Pattern([if re[0] == '.' then AnyChar else Lit(re[0])] + rest.atoms, rest.anchored)
  }

  /** Every character of `s` is one that `c*` may repeat. */
  predicate Repeats(c: char, s: string)
  {
    forall i :: 0 <= i < |s| ==> s[i] == c || c == '.'
  }

  /** The whole of `s` is spelled by `atoms`. */
  ghost predicate Spells(atoms: seq<Atom>, s: string)
    decreases |atoms|
  {
    if atoms == [] then s == []
    else match atoms[0]
      case Lit(c) => |s| > 0 && s[0] == c && Spells(atoms[1..], s[1..])
      case AnyChar => |s| > 0 && Spells(atoms[1..], s[1..])
      case Star(c) => exists j :: 0 <= j <= |s| && Repeats(c, s[..j]) && Spells(atoms[1..], s[j..])
  }

  /** `re` matches a prefix of `text`: some prefix is spelled by its
      atoms, and that prefix is all of `text` when `re` ends with `$`. */
  ghost predicate PrefixMatch(re: string, text: string)
  {
    var p := Parse(re);
    exists k :: 0 <= k <= |text| && Spells(p.atoms, text[..k]) && (p.anchored ==> k == |text|)
  }

  /** `re` matches somewhere in `text`, honouring a leading `^`. */
  ghost predicate Matches(re: string, text: string)
  {
    if |re| > 0 && re[0] == '^' then PrefixMatch(re[1..], text)
    else exists i :: 0 <= i <= |text| && PrefixMatch(re, text[i..])
  }

  // ---------------------------------------------------------------------
  // The matcher agrees with the semantics
  // ---------------------------------------------------------------------

  /** The `matchstar` loop succeeds exactly when some run of repeatable
      characters can be skipped before `re` matches. */
  lemma {:induction false} MatchStarRuns(c: char, re: string, text: string)
    ensures MatchStar(c, re, text) <==>
      exists j :: 0 <= j <= |text| && Repeats(c, text[..j]) && MatchHere(re, text[j..])
    decreases |text|
  {
    if MatchStar(c, re, text) {
      if MatchHere(re, text) {
        assert text[..0] == [] && text[0..] == text;
        assert Repeats(c, text[..0]) && MatchHere(re, text[0..]);
      } else {
        MatchStarRuns(c, re, text[1..]);
        var j :| 0 <= j <= |text[1..]| && Repeats(c, text[1..][..j]) && MatchHere(re, text[1..][j..]);
        assert text[1..][j..] == text[j + 1..];
        assert text[..j + 1] == [text[0]] + text[1..][..j];
        assert Repeats(c, text[..j + 1]);
      }
    }
    if exists j :: 0 <= j <= |text| && Repeats(c, text[..j]) && MatchHere(re, text[j..]) {
      var j :| 0 <= j <= |text| && Repeats(c, text[..j]) && MatchHere(re, text[j..]);
      if j == 0 {
        assert text[0..] == text;
      } else {
        assert text[..j][0] == text[0];
        assert text[1..][..j - 1] == text[..j][1..];
        assert text[1..][j - 1..] == text[j..];
        MatchStarRuns(c, re, text[1..]);
      }
    }
  }

  /** Spelling with a leading star: split the spelled prefix at the end of
      the starred run. */
  lemma StarPrefixSplit(c: char, atoms: seq<Atom>, anchored: bool, text: string)
    ensures (exists k :: 0 <= k <= |text| && Spells([Star(c)] + atoms, text[..k]) && (anchored ==> k == |text|))
        <==> (exists j :: 0 <= j <= |text| && Repeats(c, text[..j]) &&
               exists k :: 0 <= k <= |text[j..]| && Spells(atoms, text[j..][..k]) && (anchored ==> k == |text[j..]|))
  {
    var star := [Star(c)] + atoms;
    assert star[1..] == atoms;
    if exists k :: 0 <= k <= |text| && Spells(star, text[..k]) && (anchored ==> k == |text|) {
      var k :| 0 <= k <= |text| && Spells(star, text[..k]) && (anchored ==> k == |text|);
      var s := text[..k];
      var j :| 0 <= j <= |s| && Repeats(c, s[..j]) && Spells(atoms, s[j..]);
      assert s[..j] == text[..j];
      assert s[j..] == text[j..][..k - j];
      assert Spells(atoms, text[j..][..k - j]);
    }
    if exists j :: 0 <= j <= |text| && Repeats(c, text[..j]) &&
         exists k :: 0 <= k <= |text[j..]| && Spells(atoms, text[j..][..k]) && (anchored ==> k == |text[j..]|) {
      var j :| 0 <= j <= |text| && Repeats(c, text[..j]) &&
         exists k :: 0 <= k <= |text[j..]| && Spells(atoms, text[j..][..k]) && (anchored ==> k == |text[j..]|);
      var k :| 0 <= k <= |text[j..]| && Spells(atoms, text[j..][..k]) && (anchored ==> k == |text[j..]|);
      var s := text[..j + k];
      assert s[..j] == text[..j];
      assert s[j..] == text[j..][..k];
      assert Spells(star, s);
    }
  }

  /** Spelling with a leading single-character atom. */
  lemma OnePrefixSplit(a: Atom, atoms: seq<Atom>, anchored: bool, text: string)
    requires !a.Star?
    ensures (exists k :: 0 <= k <= |text| && Spells([a] + atoms, text[..k]) && (anchored ==> k == |text|))
        <==> (|text| > 0 && (a.AnyChar? || a.c == text[0]) &&
               exists k :: 0 <= k <= |text[1..]| && Spells(atoms, text[1..][..k]) && (anchored ==> k == |text[1..]|))
  {
    var one := [a] + atoms;
    assert one[1..] == atoms;
    if exists k :: 0 <= k <= |text| && Spells(one, text[..k]) && (anchored ==> k == |text|) {
      var k :| 0 <= k <= |text| && Spells(one, text[..k]) && (anchored ==> k == |text|);
      assert text[..k][1..] == text[1..][..k - 1];
    }
    if |text| > 0 && (a.AnyChar? || a.c == text[0]) &&
         exists k :: 0 <= k <= |text[1..]| && Spells(atoms, text[1..][..k]) && (anchored ==> k == |text[1..]|) {
      var k :| 0 <= k <= |text[1..]| && Spells(atoms, text[1..][..k]) && (anchored ==> k == |text[1..]|);
      assert text[..k + 1][1..] == text[1..][..k];
      assert Spells(one, text[..k + 1]);
    }
  }

  /** `matchhere` decides exactly the prefix-match semantics. */
  lemma {:induction false} MatchHereCorrect(re: string, text: string)
    ensures MatchHere(re, text) <==> PrefixMatch(re, text)
    decreases |re|, |text|
  {
    var p := Parse(re);
    if re == [] {
      assert text[..0] == [];
      assert Spells(p.atoms, text[..0]);
    } else if |re| >= 2 && re[1] == '*' {
      var rest := Parse(re[2..]);
      forall j | 0 <= j <= |text|
        ensures MatchHere(re[2..], text[j..]) <==> PrefixMatch(re[2..], text[j..])
      {
        MatchHereCorrect(re[2..], text[j..]);
      }
      MatchStarRuns(re[0], re[2..], text);
      StarPrefixSplit(re[0], rest.atoms, rest.anchored, text);
    } else if re[0] == '$' && |re| == 1 {
      if text == [] {
        assert text[..0] == [];
        assert Spells(p.atoms, text[..0]);
      }
    } else {
      var a := if re[0] == '.' then AnyChar else Lit(re[0]);
      var rest := Parse(re[1..]);
      OnePrefixSplit(a, rest.atoms, rest.anchored, text);
      if |text| > 0 {
        MatchHereCorrect(re[1..], text[1..]);
      }
    }
  }

  /** The do-while loop of `match` tries every suffix, the empty one included. */
  lemma {:induction false} MatchAnywhereSuffixes(re: string, text: string)
    ensures MatchAnywhere(re, text) <==> exists i :: 0 <= i <= |text| && MatchHere(re, text[i..])
    decreases |text|
  {
    assert text[0..] == text;
    if |text| > 0 {
      MatchAnywhereSuffixes(re, text[1..]);
      forall i | 1 <= i <= |text|
        ensures text[1..][i - 1..] == text[i..]
      {
      }
      if exists i :: 0 <= i <= |text| && MatchHere(re, text[i..]) {
        var i :| 0 <= i <= |text| && MatchHere(re, text[i..]);
        if i > 0 {
          assert MatchHere(re, text[1..][i - 1..]);
        }
      }
    }
  }

  /** `match` decides the matching semantics: anchored at the start after
      `^`, anywhere in the text otherwise. */
  lemma MatchCorrect(re: string, text: string)
    ensures Match(re, text) <==> Matches(re, text)
  {
    if |re| > 0 && re[0] == '^' {
      MatchHereCorrect(re[1..], text);
    } else {
      MatchAnywhereSuffixes(re, text);
      forall i | 0 <= i <= |text|
        ensures MatchHere(re, text[i..]) <==> PrefixMatch(re, text[i..])
      {
        MatchHereCorrect(re, text[i..]);
      }
    }
  }

  // ---------------------------------------------------------------------
  // Consequences
  // ---------------------------------------------------------------------

  /** A pattern starting with `^` is tried only at the start of the text. */
  lemma CaretAnchorsAtStart(r: string, text: string)
    ensures Match(['^'] + r, text) == MatchHere(r, text)
  {
    assert (['^'] + r)[1..] == r;
  }

  /** The empty pattern matches every text. */
  lemma EmptyPatternMatches(text: string)
    ensures Matches([], text)
  {
    MatchCorrect([], text);
  }

  /** A final `$` matches only at the end of the text; a `$` with more
      pattern after it (and no `*`) is a literal dollar sign. */
  lemma DollarSemantics(r: string, text: string)
    ensures MatchHere("$", text) <==> text == []
    ensures |r| > 0 && r[0] != '*' ==>
      (MatchHere(['$'] + r, text) <==> |text| > 0 && text[0] == '$' && MatchHere(r, text[1..]))
  {
    assert (['$'] + r)[1..] == r;
  }

  /** `.` and a literal consume exactly one character, never at the end of the text. */
  lemma SingleCharacterAtoms(ch: char, r: string, text: string)
    requires ch != '$' && (|r| == 0 || r[0] != '*')
    ensures MatchHere([ch] + r, []) <==> false
    ensures |text| > 0 ==>
      (MatchHere([ch] + r, text) <==> (ch == '.' || ch == text[0]) && MatchHere(r, text[1..]))
  {
    assert ([ch] + r)[1..] == r;
  }

  /** `x*` matches any number of `x`, and `.*` any characters at all. */
  lemma StarSemantics(x: char, r: string, text: string)
    ensures MatchHere([x, '*'] + r, text) <==>
      exists j :: 0 <= j <= |text| && Repeats(x, text[..j]) && MatchHere(r, text[j..])
  {
    assert ([x, '*'] + r)[2..] == r;
    MatchStarRuns(x, r, text);
  }
}
