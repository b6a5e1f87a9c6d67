/** The rewriter builds a global regular expression from each mapping key after
    putting a backslash in front of every character of `.*+?^${}()|[]\`
    (update-image-urls.js:45). This module models that escaping and just enough
    of the regular-expression syntax of a pattern without the `u` flag to show
    the escaped pattern is a literal: a tokenizer that splits a pattern into
    literal characters and operators, and the global match and replace over
    literal patterns. */
module RegexEscape {
  import opened Strings
  import opened LiteralReplace

  /** The characters the escaping replacement puts a backslash in front of. */
  const Meta: set<char> := {'.', '*', '+', '?', '^', '$', '{', '}', '(', ')', '|', '[', ']', '\\'}

  /** The metacharacters that never stand for themselves outside an escape.
      Without the `u` flag a lone `]` or `}` is an ordinary character, and so
      is a `{` that does not open a braced quantifier. */
  const Syntax: set<char> := {'.', '*', '+', '?', '^', '$', '(', ')', '|', '[', '\\'}

  /** `key.replace(/[.*+?^${}()|[\]\\]/g, '\\$&')`. */
  function Escape(key: string): (p: string)
    ensures |p| >= |key|
  {
    if |key| == 0 then []
    else (if key[0] in Meta then ['\\', key[0]] else [key[0]]) + Escape(key[1..])
  }

  /** One unit of a pattern: a character that matches itself, or anything the
      regular-expression engine gives a meaning of its own (a syntax
      character, a braced quantifier, or a backslash sequence other than an
      escaped metacharacter, whose exact reading is not distinguished here). */
  datatype Atom = Literal(c: char) | Operator(c: char)

  /** The number of decimal digits `s` starts with. */
  function DigitRun(s: string): (n: nat)
    ensures n <= |s|
    ensures forall i :: 0 <= i < n ==> '0' <= s[i] <= '9'
    ensures n < |s| ==> !('0' <= s[n] <= '9')
  {
    if |s| > 0 && '0' <= s[0] <= '9' then
      var n := DigitRun(s[1..]);
      assert forall i :: 1 <= i < 1 + n ==> s[i] == s[1..][i - 1];
      1 + n
    else 0
  }

  /** The length of the braced quantifier `{n}`, `{n,}` or `{n,m}` that `p`
      starts with, and 0 when it starts with none. */
  function QuantifierLength(p: string): (n: nat)
    ensures n <= |p|
    ensures n > 0 ==> n >= 3 && p[0] == '{' && p[n - 1] == '}'
  {
    if |p| == 0 || p[0] != '{' then 0
    else
      var d := DigitRun(p[1..]);
      if d == 0 || 1 + d >= |p| then 0
      else if p[1 + d] == '}' then d + 2
      else if p[1 + d] != ',' then 0
      else
        var e := DigitRun(p[2 + d..]);
        if 2 + d + e < |p| && p[2 + d + e] == '}' then d + e + 3 else 0
  }

  /** Split a pattern into atoms; `None` for a trailing lone backslash, which
      the `RegExp` constructor rejects. A braced quantifier is one operator
      atom (where nothing precedes it the constructor rejects it instead; it
      is not read literally either way). */
  function Tokenize(p: string): Option<seq<Atom>>
    decreases |p|
  {
    if |p| == 0 then Some([])
    else if p[0] == '\\' then
      if |p| == 1 then None
      else
        var a := if p[1] in Meta then Literal(p[1]) else Operator(p[1]);
        match Tokenize(p[2..])
        case None => None
        case Some(rest) => Some([a] + rest)
    else if p[0] in Syntax then
      match Tokenize(p[1..])
      case None => None
      case Some(rest) => Some([Operator(p[0])] + rest)
    else
      var q := QuantifierLength(p);
      if q > 0 then
        match Tokenize(p[q..])
        case None => None
        case Some(rest) => Some([Operator('{')] + rest)
      else
        match Tokenize(p[1..])
        case None => None
        case Some(rest) => Some([Literal(p[0])] + rest)
  }

  /** The atoms that match exactly the text `s`, character by character. */
  function Literals(s: string): (r: seq<Atom>)
    ensures |r| == |s|
    ensures forall i :: 0 <= i < |s| ==> r[i] == Literal(s[i])
  {
    if |s| == 0 then [] else [Literal(s[0])] + Literals(s[1..])
  }

  predicate AllLiteral(atoms: seq<Atom>)
  {
    forall i :: 0 <= i < |atoms| ==> atoms[i].Literal?
  }

  /** Whether literal atoms match `s` at position `i`, one character each. */
  predicate MatchAtoms(atoms: seq<Atom>, s: string, i: nat)
  {
    i + |atoms| <= |s| && forall j :: 0 <= j < |atoms| ==> atoms[j].c == s[i + j]
  }

  /** Whether a pattern matches `s` at position `i`. Only patterns made of
      literal atoms are given a meaning here; for the others the answer is
      `None` (their semantics is not part of this model). */
  function MatchAt(p: string, s: string, i: nat): Option<bool>
  {
    match Tokenize(p)
    case None => None
    case Some(atoms) => if !AllLiteral(atoms) then None else Some(MatchAtoms(atoms, s, i))
  }

  /** Escaping turns every key into a pattern made of exactly the key's own
      characters as literal atoms. */
  lemma {:induction false} EscapeTokenizesToLiterals(key: string)
    ensures Tokenize(Escape(key)) == Some(Literals(key))
  {
    if |key| == 0 {
    } else {
      EscapeTokenizesToLiterals(key[1..]);
      var p := Escape(key);
      if key[0] in Meta {
        assert p == ['\\', key[0]] + Escape(key[1..]);
        assert p[2..] == Escape(key[1..]);
      } else {
        assert p == [key[0]] + Escape(key[1..]);
        assert p[1..] == Escape(key[1..]);
        assert p[0] != '{' && p[0] !in Syntax;
      }
      assert Literals(key) == [Literal(key[0])] + Literals(key[1..]);
    }
  }

  /** The key's own characters match exactly where the key occurs. */
  lemma LiteralsMatchWhereKeyOccurs(key: string, s: string, i: nat)
    ensures MatchAtoms(Literals(key), s, i) == OccursAt(s, key, i)
  {
    var atoms := Literals(key);
    if i + |key| <= |s| {
      if MatchAtoms(atoms, s, i) {
        assert s[i..i + |key|] == key;
      }
      if s[i..i + |key|] == key {
        forall j | 0 <= j < |atoms|
          ensures atoms[j].c == s[i + j]
        {
          assert s[i..i + |key|][j] == s[i + j];
        }
      }
    }
  }

  /** Hence the escaped pattern matches at exactly the positions where the key
      occurs literally. */
  lemma EscapedPatternIsLiteral(key: string, s: string, i: nat)
    ensures MatchAt(Escape(key), s, i) == Some(OccursAt(s, key, i))
  {
    EscapeTokenizesToLiterals(key);
    assert AllLiteral(Literals(key));
    LiteralsMatchWhereKeyOccurs(key, s, i);
  }

  /** A tokenized pattern has at most one atom per character. */
  lemma {:induction false} TokenizeShrinks(p: string)
    requires Tokenize(p).Some?
    ensures |Tokenize(p).value| <= |p|
    decreases |p|
  {
    if |p| == 0 {
    } else if p[0] == '\\' {
      TokenizeShrinks(p[2..]);
    } else if p[0] in Syntax || QuantifierLength(p) == 0 {
      TokenizeShrinks(p[1..]);
    } else {
      TokenizeShrinks(p[QuantifierLength(p)..]);
    }
  }

  /** Without the escaping, a key is read as itself exactly when it holds no
      syntax character and no braced quantifier; a file name such as
      `logo.png` holds a `.`, so every key the uploader produces needs the
      escaping. */
  lemma {:induction false} UnescapedKeyLiteralIff(key: string)
    ensures Tokenize(key) == Some(Literals(key))
        <==> forall i :: 0 <= i < |key| ==> key[i] !in Syntax && QuantifierLength(key[i..]) == 0
    decreases |key|
  {
    if |key| == 0 {
    } else {
      var lits := Literals(key);
      assert lits == [Literal(key[0])] + Literals(key[1..]);
      assert key[0..] == key;
      if key[0] == '\\' {
        // The backslash swallows the next character, so there are fewer
        // atoms than characters.
        if |key| >= 2 && Tokenize(key[2..]).Some? {
          TokenizeShrinks(key[2..]);
        }
      } else if key[0] in Syntax {
      } else if QuantifierLength(key) > 0 {
      } else {
        UnescapedKeyLiteralIff(key[1..]);
        forall i | 1 <= i < |key|
          ensures key[1..][i - 1] == key[i] && key[1..][i - 1..] == key[i..]
        {
        }
        if Tokenize(key) == Some(lits) {
          var t := Tokenize(key[1..]);
          assert t.Some?;
          assert lits[1..] == t.value;
        }
      }
    }
  }

  /** Without the `u` flag a lone `]`, `{` or `}` stands for itself, although
      the escaping puts a backslash in front of it too. */
  lemma LoneBracketsAreLiteral()
    ensures Tokenize("a]{}") == Some(Literals("a]{}"))
  {
    var k := "a]{}";
    NoSyntaxInLoneBrackets();
    UnescapedKeyLiteralIff(k);
  }

  /** No character of `a]{}` is a syntax character or opens a quantifier. */
  lemma NoSyntaxInLoneBrackets()
    ensures var k := "a]{}";
            forall i :: 0 <= i < |k| ==> k[i] !in Syntax && QuantifierLength(k[i..]) == 0
  {
    var k := "a]{}";
    forall i | 0 <= i < |k|
      ensures k[i] !in Syntax && QuantifierLength(k[i..]) == 0
    {
      if i == 2 {
        assert k[i..] == "{}";
        assert DigitRun(k[i..][1..]) == 0;
      }
    }
  }

  /** A braced quantifier after a character repeats it, so `a{2}` is not
      read as itself. */
  lemma BracedQuantifierIsNotLiteral()
    ensures Tokenize("a{2}") != Some(Literals("a{2}"))
  {
    var q := "a{2}";
    UnescapedKeyLiteralIff(q);
    assert q[1..] == "{2}";
    assert DigitRun(q[1..][1..]) == 1;
    assert QuantifierLength(q[1..]) == 3;
  }

  /** The positions `s.match(regex)` reports for a global pattern made of
      the literal atoms `atoms`, from `from` on: every position is tried in
      turn, and after a match the search resumes right after it. */
  function GlobalMatches(atoms: seq<Atom>, s: string, from: nat): seq<nat>
    requires AllLiteral(atoms) && |atoms| > 0 && from <= |s|
    decreases |s| - from
  {
    if from + |atoms| > |s| then []
    else if MatchAtoms(atoms, s, from) then [from] + GlobalMatches(atoms, s, from + |atoms|)
    else GlobalMatches(atoms, s, from + 1)
  }

  /** `s.replace(regex, url)` for the same pattern and a replacement without
      `$` patterns, from `from` on: each match swapped for `url`. */
  function GlobalReplace(atoms: seq<Atom>, s: string, url: string, from: nat): string
    requires AllLiteral(atoms) && |atoms| > 0 && from <= |s|
    decreases |s| - from
  {
    if from + |atoms| > |s| then s[from..]
    else if MatchAtoms(atoms, s, from) then url + GlobalReplace(atoms, s, url, from + |atoms|)
    else [s[from]] + GlobalReplace(atoms, s, url, from + 1)
  }

  /** With the escaped key's atoms as the pattern, the global match reports
      the literal scan's positions. */
  lemma {:induction false} EscapedMatchesAreScan(key: string, s: string, from: nat)
    requires |key| > 0 && from <= |s|
    ensures AllLiteral(Literals(key))
    ensures GlobalMatches(Literals(key), s, from) == ScanFrom(s, key, from)
    decreases |s| - from
  {
    var atoms := Literals(key);
    LiteralsMatchWhereKeyOccurs(key, s, from);
    if from + |key| > |s| {
    } else if s[from..from + |key|] == key {
      EscapedMatchesAreScan(key, s, from + |key|);
      assert GlobalMatches(atoms, s, from) == [from] + GlobalMatches(atoms, s, from + |key|);
    } else {
      EscapedMatchesAreScan(key, s, from + 1);
      assert GlobalMatches(atoms, s, from) == GlobalMatches(atoms, s, from + 1);
    }
  }

  /** And the global replace gives the literal replace-all's text. */
  lemma {:induction false} EscapedReplaceIsReplaceAll(key: string, s: string, url: string, from: nat)
    requires |key| > 0 && from <= |s|
    ensures AllLiteral(Literals(key))
    ensures GlobalReplace(Literals(key), s, url, from) == ReplaceFrom(s, key, url, from).text
    decreases |s| - from
  {
    LiteralsMatchWhereKeyOccurs(key, s, from);
    if from + |key| > |s| {
    } else {
      var next := if s[from..from + |key|] == key then from + |key| else from + 1;
      EscapedReplaceIsReplaceAll(key, s, url, next);
      ReplaceStep(key, s, url, from);
    }
  }

  /** One step of both replacements, given that they agree on the rest. */
  lemma ReplaceStep(key: string, s: string, url: string, from: nat)
    requires |key| > 0 && from + |key| <= |s|
    requires MatchAtoms(Literals(key), s, from) == OccursAt(s, key, from)
    requires var next := if s[from..from + |key|] == key then from + |key| else from + 1;
             AllLiteral(Literals(key)) &&
             GlobalReplace(Literals(key), s, url, next) == ReplaceFrom(s, key, url, next).text
    ensures GlobalReplace(Literals(key), s, url, from) == ReplaceFrom(s, key, url, from).text
  {
    if s[from..from + |key|] == key {
      ReplaceAtMatch(Literals(key), key, s, url, from);
    } else {
      ReplaceAtMiss(Literals(key), key, s, url, from);
    }
  }

  /** Where the key occurs both replacements emit the URL and skip the key. */
  lemma ReplaceAtMatch(atoms: seq<Atom>, key: string, s: string, url: string, from: nat)
    requires AllLiteral(atoms) && |atoms| == |key| > 0 && from + |key| <= |s|
    requires MatchAtoms(atoms, s, from) && s[from..from + |key|] == key
    requires GlobalReplace(atoms, s, url, from + |key|) == ReplaceFrom(s, key, url, from + |key|).text
    ensures GlobalReplace(atoms, s, url, from) == ReplaceFrom(s, key, url, from).text
  {
  }

  /** Elsewhere both keep the character and move on by one. */
  lemma ReplaceAtMiss(atoms: seq<Atom>, key: string, s: string, url: string, from: nat)
    requires AllLiteral(atoms) && |atoms| == |key| > 0 && from + |key| <= |s|
    requires !MatchAtoms(atoms, s, from) && s[from..from + |key|] != key
    requires GlobalReplace(atoms, s, url, from + 1) == ReplaceFrom(s, key, url, from + 1).text
    ensures GlobalReplace(atoms, s, url, from) == ReplaceFrom(s, key, url, from).text
  {
  }
}
