/**
 * Column-name cleaning: the regular-expression replacement that deletes every
 * character matching [^\w\s], followed by replacing each space with an underscore.
 * Character classes are the ASCII ones.
 */
module ColumnNames {
  import opened Sequences

  /** A character of the regex class \w (ASCII letters, digits and underscore). */
  predicate IsWordChar(c: char)
  {
    ('a' <= c <= 'z') || ('A' <= c <= 'Z') || ('0' <= c <= '9') || c == '_'
  }

  /** A character of the regex class \s: space, tab, newline, vertical tab, form feed, carriage return. */
  predicate IsSpaceChar(c: char)
  {
    c == ' ' || ('\t' <= c <= '\r')
  }

  /** The characters the first replacement keeps: those NOT matching [^\w\s]. */
  predicate Kept(c: char)
  {
    IsWordChar(c) || IsSpaceChar(c)
  }

  /** The word characters of s, in order. */
  function WordChars(s: string): string
  {
    if s == [] then [] else (if IsWordChar(s[0]) then [s[0]] else []) + WordChars(s[1..])
  }

  /** First replacement: delete every character that is neither a word character nor whitespace. */
  function RemovePunctuation(s: string): (r: string)
    ensures forall i :: 0 <= i < |r| ==> Kept(r[i])
    ensures |r| <= |s|
  {
    if s == [] then [] else (if Kept(s[0]) then [s[0]] else []) + RemovePunctuation(s[1..])
  }

  /** Second replacement: every space becomes an underscore; every other character stays. */
  function ReplaceSpaces(s: string): (r: string)
    ensures |r| == |s|
    ensures forall i :: 0 <= i < |s| ==> r[i] == (if s[i] == ' ' then '_' else s[i])
  {
    seq(|s|, i requires 0 <= i < |s| => if s[i] == ' ' then '_' else s[i])
  }

  /** The cleaned name of one column. */
  function CleanName(s: string): (r: string)
    ensures forall i :: 0 <= i < |r| ==> Kept(r[i]) && r[i] != ' '
    ensures |r| <= |s|
  {
    ReplaceSpaces(RemovePunctuation(s))
  }

  /** The cleaned names of all columns, position by position. */
  function CleanNames(names: seq<string>): (r: seq<string>)
    ensures |r| == |names|
    ensures forall i :: 0 <= i < |names| ==> r[i] == CleanName(names[i])
  {
    seq(|names|, i requires 0 <= i < |names| => CleanName(names[i]))
  }

  /** Deleting punctuation leaves a string made only of kept characters unchanged. */
  lemma {:induction false} RemovePunctuationKeepsClean(s: string)
    requires forall i :: 0 <= i < |s| ==> Kept(s[i])
    ensures RemovePunctuation(s) == s
  {
    if s != [] {
      RemovePunctuationKeepsClean(s[1..]);
    }
  }

  /** A name is left unchanged by cleaning exactly when it holds only word and non-space whitespace characters. */
  lemma CleanNameFixedPoints(s: string)
    ensures CleanName(s) == s <==> forall i :: 0 <= i < |s| ==> Kept(s[i]) && s[i] != ' '
  {
    if forall i :: 0 <= i < |s| ==> Kept(s[i]) && s[i] != ' ' {
      RemovePunctuationKeepsClean(s);
      assert ReplaceSpaces(s) == s;
    }
  }

  /** Cleaning twice gives the same name as cleaning once. */
  lemma CleanNameIdempotent(s: string)
    ensures CleanName(CleanName(s)) == CleanName(s)
  {
    CleanNameFixedPoints(CleanName(s));
  }

  /** Cleaning processes the name one character at a time. */
  lemma CleanNameUnfold(s: string)
    requires s != []
    ensures CleanName(s) == ReplaceSpaces(if Kept(s[0]) then [s[0]] else []) + CleanName(s[1..])
  {
    var head := if Kept(s[0]) then [s[0]] else [];
    var tail := RemovePunctuation(s[1..]);
    assert RemovePunctuation(s) == head + tail;
    assert ReplaceSpaces(head + tail) == ReplaceSpaces(head) + ReplaceSpaces(tail);
  }

  /** The word characters of the original name survive cleaning, in their original order. */
  lemma {:induction false} CleanNameKeepsWordChars(s: string)
    ensures IsSubsequence(WordChars(s), CleanName(s))
  {
    if s != [] {
      CleanNameKeepsWordChars(s[1..]);
      CleanNameUnfold(s);
      var head := ReplaceSpaces(if Kept(s[0]) then [s[0]] else []);
      if IsWordChar(s[0]) {
        assert head == [s[0]];
        assert WordChars(s) == [s[0]] + WordChars(s[1..]);
        var c := CleanName(s);
        assert c[0] == s[0] && c[1..] == CleanName(s[1..]);
      } else {
        assert WordChars(s) == WordChars(s[1..]);
        PrependKeepsSubsequence(WordChars(s[1..]), head, CleanName(s[1..]));
      }
    }
  }
}
