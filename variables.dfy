/**
 * BDDGUI.normalize_expression and BDDGUI.extract_variables: the operator
 * symbols rewritten into Python keywords, and the sorted, duplicate-free
 * identifiers of a formula's text with the keywords removed. The identifier
 * pattern is a word boundary, a letter or underscore, any word characters,
 * and a word boundary; word characters are taken to be the ASCII letters,
 * digits and underscore.
 */
module Variables {
  import opened Formula

  /** str.replace with a one-character pattern: every occurrence of c becomes rep. */
  function ReplaceChar(s: string, c: char, rep: string): (r: string)
    ensures c !in s ==> r == s
    ensures c !in rep ==> c !in r
    ensures forall d :: d in r ==> (d in s && d != c) || d in rep
  {
    if s == [] then []
    else (if s[0] == c then rep else [s[0]]) + ReplaceChar(s[1..], c, rep)
  }

  /** The text of a formula contains none of the operator symbols ~ & |. */
  predicate NoSymbols(s: string)
  {
    '~' !in s && '&' !in s && '|' !in s
  }

  /**
   * normalize_expression: ~ becomes "not ", then & becomes " and ", then |
   * becomes " or ". The result has no operator symbols left, and text that
   * had none comes back unchanged.
   */
  function Normalize(s: string): (r: string)
    ensures NoSymbols(r)
    ensures NoSymbols(s) ==> r == s
  {
    ReplaceChar(ReplaceChar(ReplaceChar(s, '~', "not "), '&', " and "), '|', " or ")
  }

  /**
   * build_bdds normalises the text and extract_variables normalises it
   * again; the second pass changes nothing.
   */
  lemma NormalizeIdempotent(s: string)
    ensures Normalize(Normalize(s)) == Normalize(s)
  {
  }

  /** What one character of the text becomes. */
  function Spelled(c: char): string
  {
    if c == '~' then "not "
    else if c == '&' then " and "
    else if c == '|' then " or "
    else [c]
  }

  /** A one-pass reference for the rewriting: each character spelled out. */
  function SpellOut(s: string): string
  {
    if s == [] then [] else Spelled(s[0]) + SpellOut(s[1..])
  }

  lemma {:induction false} ReplaceCharConcat(a: string, b: string, c: char, rep: string)
    ensures ReplaceChar(a + b, c, rep) == ReplaceChar(a, c, rep) + ReplaceChar(b, c, rep)
    decreases |a|
  {
    if a == [] {
      assert a + b == b;
    } else {
      assert (a + b)[0] == a[0] && (a + b)[1..] == a[1..] + b;
      ReplaceCharConcat(a[1..], b, c, rep);
    }
  }

  /** One character goes through the three replacements as Spelled says. */
  lemma SpelledByReplacements(x: char)
    ensures ReplaceChar(ReplaceChar(ReplaceChar([x], '~', "not "), '&', " and "), '|', " or ") == Spelled(x)
  {
    assert [x][1..] == [];
    assert '&' !in "not " && '|' !in "not " && '|' !in " and ";
  }

  /**
   * The three chained replacements act as one pass over the text: the
   * keywords they insert contain no operator symbol for a later pass to
   * rewrite again.
   */
  lemma {:induction false} NormalizeIsOnePass(s: string)
    ensures Normalize(s) == SpellOut(s)
    decreases |s|
  {
    if s != [] {
      var head, rest := [s[0]], s[1..];
      assert s == head + rest;
      ReplaceCharConcat(head, rest, '~', "not ");
      var h1, t1 := ReplaceChar(head, '~', "not "), ReplaceChar(rest, '~', "not ");
      ReplaceCharConcat(h1, t1, '&', " and ");
      var h2, t2 := ReplaceChar(h1, '&', " and "), ReplaceChar(t1, '&', " and ");
      ReplaceCharConcat(h2, t2, '|', " or ");
      SpelledByReplacements(s[0]);
      NormalizeIsOnePass(rest);
    }
  }

  predicate IsWordStart(c: char)
  {
    ('a' <= c <= 'z') || ('A' <= c <= 'Z') || c == '_'
  }

  /** A character matched by \w. */
  predicate IsWordChar(c: char)
  {
    IsWordStart(c) || ('0' <= c <= '9')
  }

  /** A letter or underscore followed by word characters. */
  predicate IsIdentifier(w: string)
  {
    |w| > 0 && IsWordStart(w[0]) && forall i | 0 <= i < |w| :: IsWordChar(w[i])
  }

  /** The length of the run of word characters that starts the text. */
  function RunLength(s: string): (n: nat)
    ensures n <= |s|
    ensures forall i | 0 <= i < n :: IsWordChar(s[i])
    ensures n == |s| || !IsWordChar(s[n])
  {
    if s == [] || !IsWordChar(s[0]) then 0 else 1 + RunLength(s[1..])
  }

  /**
   * re.findall of the identifier pattern, scanning from a word boundary:
   * each maximal run of word characters is one match when it starts with a
   * letter or underscore, and none when it starts with a digit.
   */
  function Tokens(s: string): (r: seq<string>)
    ensures forall w | w in r :: IsIdentifier(w)
    decreases |s|
  {
    if s == [] then []
    else if !IsWordChar(s[0]) then Tokens(s[1..])
    else
      var n := RunLength(s);
      (if IsWordStart(s[0]) then [s[..n]] else []) + Tokens(s[n..])
  }

  /**
   * The pattern matches s[i..j]: an identifier with a word boundary on
   * each side.
   */
  ghost predicate MatchAt(s: string, i: int, j: int)
  {
    0 <= i < j <= |s| &&
    (i == 0 || !IsWordChar(s[i - 1])) && (j == |s| || !IsWordChar(s[j])) &&
    IsIdentifier(s[i..j])
  }

  /**
   * Matches in a suffix are the matches of the whole text that start at or
   * after the cut, when the cut is at a word boundary or next to a
   * non-word character.
   */
  lemma MatchShift(s: string, k: nat, i: int, j: int)
    requires k <= |s| && 0 <= i
    requires k == 0 || k == |s| || !IsWordChar(s[k - 1]) || !IsWordChar(s[k])
    ensures MatchAt(s[k..], i, j) <==> MatchAt(s, i + k, j + k)
    ensures MatchAt(s[k..], i, j) ==> s[k..][i..j] == s[i + k..j + k]
  {
    if MatchAt(s[k..], i, j) {
      assert s[k..][i..j] == s[i + k..j + k];
      assert i == 0 ==> !IsWordChar(s[k]) || k == 0 || !IsWordChar(s[k - 1]);
    }
    if MatchAt(s, i + k, j + k) {
      assert s[k..][i..j] == s[i + k..j + k];
      assert s[i + k..j + k][0] == s[i + k];
    }
  }

  /** Tokens(s) splits into the match at the front, if any, and the rest. */
  lemma TokensUnfold(s: string) returns (n: nat)
    requires s != []
    ensures 0 < n <= |s|
    ensures IsWordChar(s[0]) ==> n == RunLength(s)
    ensures !IsWordChar(s[0]) ==> n == 1
    ensures Tokens(s) == (if IsWordStart(s[0]) then [s[..n]] else []) + Tokens(s[n..])
  {
    n := if IsWordChar(s[0]) then RunLength(s) else 1;
  }

  /** Every token is a text the pattern matches. */
  lemma {:induction false} TokensSound(s: string, w: string)
    requires w in Tokens(s)
    ensures exists i, j :: MatchAt(s, i, j) && s[i..j] == w
    decreases |s|
  {
    var n := TokensUnfold(s);
    var t := s[n..];
    if IsWordStart(s[0]) && w == s[..n] {
      assert s[0..n] == w;
      assert MatchAt(s, 0, n);
    } else {
      TokensSound(t, w);
      var i, j :| MatchAt(t, i, j) && t[i..j] == w;
      MatchShift(s, n, i, j);
    }
  }

  /** A match that starts inside the leading run of word characters is that run. */
  lemma FrontMatch(s: string, i: int, j: int, n: nat)
    requires MatchAt(s, i, j) && i < n <= |s|
    requires forall k | 0 <= k < n :: IsWordChar(s[k])
    requires n == |s| || !IsWordChar(s[n])
    ensures i == 0 && j == n
  {
    forall k | i <= k < j ensures IsWordChar(s[k]) {
      assert s[i..j][k - i] == s[k];
    }
  }

  /** A match that starts inside the first run of the text is the first token. */
  lemma FrontToken(s: string, i: int, j: int)
    requires MatchAt(s, i, j)
    requires i < (if IsWordChar(s[0]) then RunLength(s) else 1)
    ensures s[i..j] in Tokens(s)
  {
    var n := TokensUnfold(s);
    FrontMatch(s, i, j, n);
    assert IsWordStart(s[0]) by {
      assert s[i..j][0] == s[0];
    }
    assert s[i..j] == s[..n];
  }

  /** Every text the pattern matches is a token. */
  lemma {:induction false} TokensComplete(s: string, i: int, j: int)
    requires MatchAt(s, i, j)
    ensures s[i..j] in Tokens(s)
    decreases |s|
  {
    var n := TokensUnfold(s);
    if i < n {
      FrontToken(s, i, j);
    } else {
      var t := s[n..];
      var i', j' := i - n, j - n;
      assert i' + n == i && j' + n == j;
      MatchShift(s, n, i', j');
      TokensComplete(t, i', j');
      assert s[i..j] == t[i'..j'];
    }
  }

  /** The scanner finds exactly the texts the pattern matches. */
  lemma TokensAreMatches(s: string, w: string)
    ensures w in Tokens(s) <==> exists i, j :: MatchAt(s, i, j) && s[i..j] == w
  {
    if w in Tokens(s) {
      TokensSound(s, w);
    }
    if exists i, j :: MatchAt(s, i, j) && s[i..j] == w {
      var i, j :| MatchAt(s, i, j) && s[i..j] == w;
      TokensComplete(s, i, j);
    }
  }

  /** The names the formula syntax reserves. */
  predicate IsKeyword(w: string)
  {
    w == "and" || w == "or" || w == "not" || w == "True" || w == "False"
  }

  /** Python's ordering of strings: by code point, a proper prefix first. */
  predicate LexLess(a: string, b: string)
    decreases |a|
  {
    if a == [] then b != []
    else b != [] && (a[0] < b[0] || (a[0] == b[0] && LexLess(a[1..], b[1..])))
  }

  lemma {:induction false} LexLessIrreflexive(a: string)
    ensures !LexLess(a, a)
    decreases |a|
  {
    if a != [] {
      LexLessIrreflexive(a[1..]);
    }
  }

  lemma {:induction false} LexLessTransitive(a: string, b: string, c: string)
    requires LexLess(a, b) && LexLess(b, c)
    ensures LexLess(a, c)
    decreases |a|
  {
    if a != [] && a[0] == b[0] && b[0] == c[0] {
      LexLessTransitive(a[1..], b[1..], c[1..]);
    }
  }

  lemma {:induction false} LexLessTotal(a: string, b: string)
    requires a != b
    ensures LexLess(a, b) || LexLess(b, a)
    decreases |a|
  {
    if a != [] && b != [] && a[0] == b[0] {
      assert a == [a[0]] + a[1..] && b == [b[0]] + b[1..];
      LexLessTotal(a[1..], b[1..]);
    }
  }

  predicate StrictlySorted(r: seq<string>)
  {
    forall i, j | 0 <= i < j < |r| :: LexLess(r[i], r[j])
  }

  /** A strictly sorted list has no duplicates. */
  lemma StrictlySortedNoDup(r: seq<string>)
    requires StrictlySorted(r)
    ensures NoDup(r)
  {
    forall i, j | 0 <= i < j < |r| ensures r[i] != r[j] {
      LexLessIrreflexive(r[i]);
    }
  }

  /** Adding w to a strictly sorted list of distinct names. */
  function Insert(r: seq<string>, w: string): (r': seq<string>)
    requires StrictlySorted(r)
    ensures StrictlySorted(r')
    ensures forall x :: x in r' <==> x in r || x == w
  {
    if r == [] then [w]
    else if r[0] == w then r
    else if LexLess(w, r[0]) then
      assert forall j | 0 < j < |r| :: LexLess(w, r[j]) by {
        forall j | 0 < j < |r| ensures LexLess(w, r[j]) {
          LexLessTransitive(w, r[0], r[j]);
        }
      }
      [w] + r
    else
      LexLessTotal(w, r[0]);
      var rest := Insert(r[1..], w);
      assert forall x | x in rest :: LexLess(r[0], x) by {
        forall x | x in rest ensures LexLess(r[0], x) {
          if x != w {
            var j :| 0 <= j < |r[1..]| && r[1..][j] == x;
            assert r[j + 1] == x;
          }
        }
      }
      assert forall x :: x in [r[0]] + rest <==> x == r[0] || x in rest;
      assert r == [r[0]] + r[1..];
      [r[0]] + rest
  }

  /** The set of the tokens that are not keywords, as a sorted list. */
  function Collect(ts: seq<string>): (r: seq<string>)
    ensures StrictlySorted(r)
    ensures forall x :: x in r <==> x in ts && !IsKeyword(x)
  {
    if ts == [] then []
    else
      var rest := Collect(ts[1..]);
      assert forall x :: x in ts <==> x == ts[0] || x in ts[1..] by {
        assert ts == [ts[0]] + ts[1..];
      }
      if IsKeyword(ts[0]) then rest else Insert(rest, ts[0])
  }

  /**
   * extract_variables: the identifiers of the normalised text, without the
   * keywords, each once, in increasing order. They are the variable order
   * build_bdds uses when none is selected, and they are duplicate-free.
   */
  function ExtractVariables(s: string): (r: seq<string>)
    ensures StrictlySorted(r) && NoDup(r)
    ensures forall w :: w in r <==> w in Tokens(Normalize(s)) && !IsKeyword(w)
    ensures forall w | w in r :: IsIdentifier(w) && !IsKeyword(w)
  {
    var r := Collect(Tokens(Normalize(s)));
    StrictlySortedNoDup(r);
    r
  }
}
