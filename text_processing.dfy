/**
 * The tokenizer of utils/text_processing.py: delete every character that is
 * neither a word character nor whitespace, split on whitespace, lowercase
 * each piece and keep the pieces found in the dictionary.
 */
module TextProcessing {
  import opened Ascii
  import opened Seqs

  /** The characters `re.sub(r'[^\w\s]', '', text)` keeps. */
  predicate IsKept(c: char) { IsWordChar(c) || IsSpace(c) }

  predicate IsNotSpace(c: char) { !IsSpace(c) }

  /**
   * `re.sub(r'[^\w\s]', '', text)`. Characters are deleted, not replaced: every
   * kept character occurs as often as in `text`, every other one not at all.
   */
  function RemovePunctuation(text: string): (r: string)
    ensures |r| <= |text|
    ensures forall c :: multiset(r)[c] == if IsKept(c) then multiset(text)[c] else 0
  {
    FilterMultiset(text, IsKept);
    Filter(text, IsKept)
  }

  /** Deletion commutes with concatenation, so the kept characters stay in their order. */
  lemma RemovePunctuationConcat(a: string, b: string)
    ensures RemovePunctuation(a + b) == RemovePunctuation(a) + RemovePunctuation(b)
  {
    FilterConcat(a, b, IsKept);
  }

  /** End of the run of non-whitespace characters starting at `i`. */
  function PieceEnd(s: string, i: nat): (j: nat)
    requires i <= |s|
    ensures i <= j <= |s|
    ensures forall k :: i <= k < j ==> !IsSpace(s[k])
    ensures j < |s| ==> IsSpace(s[j])
    decreases |s| - i
  {
    if i < |s| && !IsSpace(s[i]) then PieceEnd(s, i + 1) else i
  }

  predicate NoSpace(p: string) { forall k :: 0 <= k < |p| ==> !IsSpace(p[k]) }

  /**
   * `str.split()` with no argument: the maximal runs of non-whitespace
   * characters. Pieces are never empty, hold no whitespace, and every
   * character of a piece comes from `s`.
   */
  function SplitWhitespace(s: string): (pieces: seq<string>)
    ensures forall p :: p in pieces ==> p != [] && NoSpace(p)
    ensures forall p, c :: p in pieces && c in p ==> c in s
    decreases |s|
  {
    if s == [] then []
    else if IsSpace(s[0]) then SplitWhitespace(s[1..])
    else
      var j := PieceEnd(s, 0);
      [s[..j]] + SplitWhitespace(s[j..])
  }

  /** Joining the pieces gives back `s` with its whitespace deleted. */
  lemma {:induction false} SplitWhitespaceConcat(s: string)
    ensures Concat(SplitWhitespace(s)) == Filter(s, IsNotSpace)
    decreases |s|
  {
    if s == [] {
    } else if IsSpace(s[0]) {
      assert s == [s[0]] + s[1..];
      FilterConcat([s[0]], s[1..], IsNotSpace);
      SplitWhitespaceConcat(s[1..]);
    } else {
      var j := PieceEnd(s, 0);
      assert s == s[..j] + s[j..];
      FilterConcat(s[..j], s[j..], IsNotSpace);
      FilterAll(s[..j], IsNotSpace);
      SplitWhitespaceConcat(s[j..]);
      var pieces := [s[..j]] + SplitWhitespace(s[j..]);
      assert pieces[1..] == SplitWhitespace(s[j..]);
    }
  }

  /** `' '.join(pieces)` */
  function JoinWithSpaces(pieces: seq<string>): string
  {
    if pieces == [] then []
    else if |pieces| == 1 then pieces[0]
    else pieces[0] + " " + JoinWithSpaces(pieces[1..])
  }

  lemma SplitAfterPiece(p: string, rest: string)
    requires p != [] && NoSpace(p)
    requires rest == [] || IsSpace(rest[0])
    ensures SplitWhitespace(p + rest) == [p] + SplitWhitespace(rest)
  {
    var s := p + rest;
    var j := PieceEnd(s, 0);
    if j < |p| {
    } else if j > |p| {
    }
    assert s[..|p|] == p && s[|p|..] == rest;
  }

  /** Splitting undoes joining with single spaces, for pieces `str.split` could return. */
  lemma {:induction false} SplitJoin(pieces: seq<string>)
    requires forall p :: p in pieces ==> p != [] && NoSpace(p)
    ensures SplitWhitespace(JoinWithSpaces(pieces)) == pieces
  {
    if pieces == [] {
    } else if |pieces| == 1 {
      assert pieces[0] in pieces;
      SplitAfterPiece(pieces[0], []);
      assert pieces[0] + [] == pieces[0];
    } else {
      var tail := JoinWithSpaces(pieces[1..]);
      var rest := " " + tail;
      assert JoinWithSpaces(pieces) == pieces[0] + rest;
      assert pieces[0] in pieces;
      assert forall p :: p in pieces[1..] ==> p in pieces;
      SplitAfterPiece(pieces[0], rest);
      assert rest[1..] == tail;
      SplitJoin(pieces[1..]);
      assert pieces == [pieces[0]] + pieces[1..];
    }
  }

  /**
   * `[word.lower() for word in pieces if word.lower() in dictionary]`: the
   * lowercased pieces that are dictionary members, in order.
   */
  function KnownWords(pieces: seq<string>, dictionary: set<string>): (words: seq<string>)
    ensures |words| <= |pieces|
    ensures forall w :: w in words ==> w in dictionary
  {
    if pieces == [] then []
    else
      var w := Lower(pieces[0]);
      assert pieces == [pieces[0]] + pieces[1..];
      (if w in dictionary then [w] else []) + KnownWords(pieces[1..], dictionary)
  }

  /**
   * A word is kept exactly when it is in the dictionary and some piece
   * lowercases to it; so nothing is kept exactly when no piece does.
   */
  lemma {:induction false} KnownWordsMembers(pieces: seq<string>, dictionary: set<string>)
    ensures forall w :: w in KnownWords(pieces, dictionary) <==>
      w in dictionary && exists p :: p in pieces && Lower(p) == w
    ensures KnownWords(pieces, dictionary) == [] <==> forall p :: p in pieces ==> Lower(p) !in dictionary
  {
    if pieces != [] {
      KnownWordsMembers(pieces[1..], dictionary);
      assert pieces == [pieces[0]] + pieces[1..];
    }
  }

  /** The test is made piece by piece, so the kept words stay in the order of their pieces. */
  lemma {:induction false} KnownWordsConcat(a: seq<string>, b: seq<string>, dictionary: set<string>)
    ensures KnownWords(a + b, dictionary) == KnownWords(a, dictionary) + KnownWords(b, dictionary)
  {
    if a == [] {
      assert a + b == b;
    } else {
      var w := Lower(a[0]);
      var head := if w in dictionary then [w] else [];
      calc {
        KnownWords(a + b, dictionary);
        { assert (a + b)[0] == a[0]; assert (a + b)[1..] == a[1..] + b; }
        head + KnownWords(a[1..] + b, dictionary);
        { KnownWordsConcat(a[1..], b, dictionary); }
        head + (KnownWords(a[1..], dictionary) + KnownWords(b, dictionary));
        (head + KnownWords(a[1..], dictionary)) + KnownWords(b, dictionary);
      }
    }
  }

  /**
   * `get_cleaned_words_from_text`. Every word returned is in the dictionary,
   * is non-empty, is made of word characters only and is already lowercase.
   */
  function CleanedWords(text: string, dictionary: set<string>): (words: seq<string>)
    ensures forall w :: w in words ==> w in dictionary
    ensures forall w :: w in words ==> w != [] && Lower(w) == w
    ensures forall w, k :: w in words && 0 <= k < |w| ==> IsWordChar(w[k])
    ensures |words| <= |SplitWhitespace(RemovePunctuation(text))|
    ensures words == [] <==> forall p :: p in SplitWhitespace(RemovePunctuation(text)) ==> Lower(p) !in dictionary
  {
    var pieces := SplitWhitespace(RemovePunctuation(text));
    var words := KnownWords(pieces, dictionary);
    KnownWordsMembers(pieces, dictionary);
    assert forall w :: w in words ==> w != [] && Lower(w) == w && forall k :: 0 <= k < |w| ==> IsWordChar(w[k]) by {
      forall w | w in words
        ensures w != [] && Lower(w) == w && forall k :: 0 <= k < |w| ==> IsWordChar(w[k])
      {
        var p :| p in pieces && Lower(p) == w;
        forall k | 0 <= k < |w|
          ensures IsWordChar(w[k])
        {
          assert p[k] in p;
          assert multiset(RemovePunctuation(text))[p[k]] > 0;
        }
      }
    }
    words
  }

  /** An apostrophe is deleted, not turned into a space. */
  lemma ApostropheIsDeleted(t: string)
    requires t == "Don't"
    ensures RemovePunctuation(t) == "Dont"
  {
    KeptOfApostrophe(t);
  }

  lemma KeptOfApostrophe(t: string)
    requires t == "Don't"
    ensures Filter(t, IsKept) == "Dont"
  {
    assert IsKept(t[0]) && IsKept(t[1]) && IsKept(t[2]) && !IsKept(t[3]) && IsKept(t[4]);
    var f4 := Filter(t[4..], IsKept);
    assert f4 == [t[4]] by { assert t[4..][1..] == []; }
    var f3 := Filter(t[3..], IsKept);
    assert f3 == f4 by { assert t[3..][1..] == t[4..]; }
    var f2 := Filter(t[2..], IsKept);
    assert f2 == [t[2]] + f3 by { assert t[2..][1..] == t[3..]; }
    var f1 := Filter(t[1..], IsKept);
    assert f1 == [t[1]] + f2 by { assert t[1..][1..] == t[2..]; }
  }

  /** So "Don't" yields the single word "dont", not "don" and "t". */
  lemma ApostropheWord(t: string, dictionary: set<string>)
    requires t == "Don't" && "dont" in dictionary
    ensures CleanedWords(t, dictionary) == ["dont"]
  {
    ApostropheIsDeleted(t);
    SplitAfterPiece("Dont", []);
    assert "Dont" + [] == "Dont";
    assert Lower("Dont") == "dont";
    assert KnownWords(["Dont"], dictionary) == ["dont"];
  }
}
