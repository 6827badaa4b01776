/** The two Go `strings` functions the after-hook relies on to infer an
    operation name from the statement text: `strings.Split` with a
    one-character separator and `strings.ToUpper` on ASCII text. */
module GoStrings {

  /** `strings.Split(s, sep)` for a one-character separator: the pieces of `s`
      between occurrences of `sep`. There is always at least one piece, even
      for the empty string; the first piece is the longest prefix of `s`
      that does not contain `sep`. */
  function Split(s: string, sep: char): (parts: seq<string>)
    ensures |parts| >= 1
    ensures parts[0] <= s
    ensures sep !in parts[0]
    ensures |parts[0]| == |s| || s[|parts[0]|] == sep
    ensures forall i :: 0 <= i < |parts| ==> sep !in parts[i]
    decreases |s|
  {
    if |s| == 0 then [""]
    else
      var rest := Split(s[1..], sep);
      if s[0] == sep then [""] + rest
      else [[s[0]] + rest[0]] + rest[1..]
  }

  /** `strings.Join(parts, sep)` for a one-character separator. */
  function Join(parts: seq<string>, sep: char): string
    requires |parts| >= 1
    decreases |parts|
  {
    if |parts| == 1 then parts[0]
    else parts[0] + [sep] + Join(parts[1..], sep)
  }

  /** Joining the pieces of `Split` with the same separator gives back the
      original text: splitting loses nothing. */
  lemma {:induction false} JoinSplit(s: string, sep: char)
    ensures Join(Split(s, sep), sep) == s
    decreases |s|
  {
    if |s| > 0 {
      var rest := Split(s[1..], sep);
      JoinSplit(s[1..], sep);
      if s[0] == sep {
        JoinEmptyFirst(rest, sep);
      } else {
        JoinExtendFirst(s[0], rest, sep);
      }
      assert s == [s[0]] + s[1..];
    }
  }

  /** A leading empty piece joins to a leading separator. */
  lemma JoinEmptyFirst(parts: seq<string>, sep: char)
    requires |parts| >= 1
    ensures Join([""] + parts, sep) == [sep] + Join(parts, sep)
  {
    assert ([""] + parts)[1..] == parts;
  }

  /** Extending the first piece by a character extends the joined text by
      that character. */
  lemma JoinExtendFirst(c: char, parts: seq<string>, sep: char)
    requires |parts| >= 1
    ensures Join([[c] + parts[0]] + parts[1..], sep) == [c] + Join(parts, sep)
  {
    var ext := [[c] + parts[0]] + parts[1..];
    if |parts| > 1 {
      assert ext[1..] == parts[1..];
    }
  }

  /** Text containing no separator splits into itself alone. */
  lemma {:induction false} SplitWithoutSeparator(s: string, sep: char)
    requires sep !in s
    ensures Split(s, sep) == [s]
    decreases |s|
  {
    if |s| > 0 {
      assert s[0] != sep && sep !in s[1..];
      SplitWithoutSeparator(s[1..], sep);
      assert Split(s, sep) == [[s[0]] + s[1..]];
      assert [s[0]] + s[1..] == s;
    }
  }

  predicate IsAsciiLower(c: char) {
    'a' <= c <= 'z'
  }

  /** Upper-cases one rune: ASCII letters `a`-`z` become `A`-`Z`; every
      other rune is left as it is. */
  function UpperRune(c: char): (u: char)
    ensures !IsAsciiLower(u)
  {
    if IsAsciiLower(c) then (c as int - 32) as char else c
  }

  /** `strings.ToUpper` on text whose letters are ASCII. */
  function ToUpper(s: string): (r: string)
    ensures |r| == |s|
    ensures forall i :: 0 <= i < |s| ==> r[i] == UpperRune(s[i])
    decreases |s|
  {
    if |s| == 0 then "" else [UpperRune(s[0])] + ToUpper(s[1..])
  }

  /** Upper-casing leaves no ASCII lower-case letter, keeps the positions of
      every other rune and is idempotent. */
  lemma ToUpperProperties(s: string)
    ensures forall i :: 0 <= i < |s| ==> !IsAsciiLower(ToUpper(s)[i])
    ensures forall i :: 0 <= i < |s| && !IsAsciiLower(s[i]) ==> ToUpper(s)[i] == s[i]
    ensures ToUpper(ToUpper(s)) == ToUpper(s)
  {
  }

  /** Upper-casing never introduces or removes a space, so the upper-cased
      first piece of a split is still free of the separator. */
  lemma ToUpperKeepsSpaces(s: string)
    ensures (' ' in ToUpper(s)) <==> (' ' in s)
  {
    var u := ToUpper(s);
    if ' ' in s {
      var i :| 0 <= i < |s| && s[i] == ' ';
      assert u[i] == ' ';
    }
    if ' ' in u {
      var i :| 0 <= i < |u| && u[i] == ' ';
      assert s[i] == ' ';
    }
  }
}
