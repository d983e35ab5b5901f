/** Title formatting: a page name such as `st-peters-church` shown as the
    heading `St Peters Church`. */
module Title {
  import opened Strings

  /** The separator between the words of a page name. */
  const Hyphen: char := '-'

  /** The separator between the words of a title. */
  const Space: char := ' '

  /** Upper-casing of one character, restricted to the ASCII letters. */
  function Upper(c: char): char
  {
    if 'a' <= c <= 'z' then (c as int - 32) as char else c
  }

  /** `word.charAt(0).toUpperCase() + word.slice(1)`; the empty word stays
      empty. */
  function Capitalize(word: string): string
  {
    if |word| == 0 then "" else [Upper(word[0])] + word[1..]
  }

  /** Every word capitalised, in order. */
  function CapitalizeAll(words: seq<string>): (caps: seq<string>)
    ensures |caps| == |words|
  {
    seq(|words|, i requires 0 <= i < |words| => Capitalize(words[i]))
  }

  /** The title of a page name: split on hyphens, each word capitalised,
      joined with single spaces. */
  function FormatTitle(name: string): string
  {
    Join(CapitalizeAll(Split(name, Hyphen)), Space)
  }

  /** Reference definition, character by character: a hyphen becomes a space,
      the first character of every word is upper-cased, every other
      character is kept. */
  function TitleChar(name: string, i: nat): char
    requires i < |name|
  {
    if name[i] == Hyphen then Space
    else if i == 0 || name[i - 1] == Hyphen then Upper(name[i])
    else name[i]
  }

  /** Capitalising a word extended by one character extends its
      capitalisation by that character, upper-cased when it starts the word. */
  lemma CapitalizeSnoc(word: string, c: char)
    ensures Capitalize(word + [c]) == Capitalize(word) + [if word == "" then Upper(c) else c]
  {
    if word != "" {
      assert (word + [c])[1..] == word[1..] + [c];
    }
  }

  /** Capitalising every word distributes over appending one word. */
  lemma CapitalizeAllSnoc(words: seq<string>, word: string)
    ensures CapitalizeAll(words + [word]) == CapitalizeAll(words) + [Capitalize(word)]
  {
  }

  /** A hyphen at the end of the name adds a space at the end of the title. */
  lemma FormatTitleSnocHyphen(name: string)
    requires |name| > 0 && name[|name| - 1] == Hyphen
    ensures FormatTitle(name) == FormatTitle(name[..|name| - 1]) + [Space]
  {
    var parts := Split(name[..|name| - 1], Hyphen);
    var caps := CapitalizeAll(parts);
    assert Split(name, Hyphen) == parts + [""];
    CapitalizeAllSnoc(parts, "");
    var joined := caps + [""];
    assert joined[..|joined| - 1] == caps;
  }

  /** Any other character at the end of the name adds its title character at
      the end of the title. */
  lemma FormatTitleSnocOther(name: string)
    requires |name| > 0 && name[|name| - 1] != Hyphen
    ensures FormatTitle(name) == FormatTitle(name[..|name| - 1]) + [TitleChar(name, |name| - 1)]
  {
    var s := name[..|name| - 1];
    var c := name[|name| - 1];
    var parts := Split(s, Hyphen);
    var caps := CapitalizeAll(parts);
    var front := parts[..|parts| - 1];
    var last := Last(parts);
    LastPieceEmpty(s, Hyphen);
    var d := if last == "" then Upper(c) else c;
    assert d == TitleChar(name, |name| - 1);
    assert Split(name, Hyphen) == front + [last + [c]];
    CapitalizeSnoc(last, c);
    CapitalizeAllSnoc(front, last + [c]);
    CapitalizeAllSnoc(front, last);
    assert front + [last] == parts;
    assert CapitalizeAll(front) == caps[..|caps| - 1];
    JoinExtendLast(caps, Space, d);
  }

  /** Adding one character to the name adds exactly that character's title
      character to the title. */
  lemma FormatTitleSnoc(name: string)
    requires |name| > 0
    ensures FormatTitle(name) == FormatTitle(name[..|name| - 1]) + [TitleChar(name, |name| - 1)]
  {
    if name[|name| - 1] == Hyphen {
      FormatTitleSnocHyphen(name);
    } else {
      FormatTitleSnocOther(name);
    }
  }

  /** The title has the name's length and agrees with the reference
      definition at every position. */
  lemma {:induction false} FormatTitleIsTitleChars(name: string)
    ensures |FormatTitle(name)| == |name|
    ensures forall i :: 0 <= i < |name| ==> FormatTitle(name)[i] == TitleChar(name, i)
    decreases |name|
  {
    if |name| == 0 {
      assert Split(name, Hyphen) == [""];
      assert CapitalizeAll([""]) == [""];
    } else {
      var s := name[..|name| - 1];
      FormatTitleIsTitleChars(s);
      FormatTitleSnoc(name);
      forall i | 0 <= i < |name| - 1
        ensures FormatTitle(name)[i] == TitleChar(name, i)
      {
        assert FormatTitle(name)[i] == FormatTitle(s)[i] == TitleChar(s, i);
      }
    }
  }

  /** Every hyphen becomes a space, no hyphen is left, and a space of the
      title stands where the name had a hyphen or a space. */
  lemma FormatTitleSpaces(name: string)
    ensures |FormatTitle(name)| == |name|
    ensures Hyphen !in FormatTitle(name)
    ensures forall i :: 0 <= i < |name| ==> (FormatTitle(name)[i] == Space <==> name[i] == Hyphen || name[i] == Space)
  {
    FormatTitleIsTitleChars(name);
  }

  /** Formatting a title a second time changes nothing. */
  lemma FormatTitleIdempotent(name: string)
    ensures FormatTitle(FormatTitle(name)) == FormatTitle(name)
  {
    var t := FormatTitle(name);
    FormatTitleIsTitleChars(name);
    FormatTitleIsTitleChars(t);
    forall i | 0 <= i < |t|
      ensures FormatTitle(t)[i] == t[i]
    {
      assert t[i] != Hyphen;
      if i == 0 {
        assert t[0] == Space || t[0] == Upper(name[0]);
      } else {
        assert t[i - 1] != Hyphen;
      }
    }
  }

  /** The empty name has the empty title. */
  lemma FormatTitleEmpty()
    ensures FormatTitle("") == ""
  {
    FormatTitleIsTitleChars("");
  }

  /** When the name holds no space, splitting the title on spaces gives back
      exactly the capitalised hyphen-separated words of the name. */
  lemma TitleWordsAreCapitalizedWords(name: string)
    requires Space !in name
    ensures Split(FormatTitle(name), Space) == CapitalizeAll(Split(name, Hyphen))
  {
    var parts := Split(name, Hyphen);
    var caps := CapitalizeAll(parts);
    JoinSplit(name, Hyphen);
    PieceCharsInJoin(parts, Hyphen);
    forall i | 0 <= i < |caps|
      ensures Space !in caps[i]
    {
      forall j | 0 <= j < |parts[i]|
        ensures parts[i][j] != Space
      {
        assert parts[i][j] in name;
      }
    }
    SplitJoin(caps, Space);
  }

  /** A worked example: the page `st-peters-church`. */
  lemma FormatTitleExample()
    ensures FormatTitle("st-peters-church") == "St Peters Church"
  {
    FormatTitleIsTitleChars("st-peters-church");
  }
}
