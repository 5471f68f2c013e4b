/** Turning a Morty's display name into the name of its front image on the
    wiki, and the local file name the image is saved under (the scraper script). */
module MortyNames {
  import opened Common

  const MortySuffix := " Morty"
  const ImagePrefix := "Morty"
  const ImageSuffix := "Front.png"

  predicate EndsWith(s: string, suffix: string)
  {
    |suffix| <= |s| && s[|s| - |suffix|..] == suffix
  }

  /** `if name.endswith(' Morty'): name = name[:-6]` */
  function DropMortySuffix(name: string): (r: string)
    ensures EndsWith(name, MortySuffix) ==> r + MortySuffix == name
    ensures !EndsWith(name, MortySuffix) ==> r == name
  {
    if EndsWith(name, MortySuffix) then
      assert name == name[..|name| - 6] + name[|name| - 6..];
      name[..|name| - 6]
    else name
  }

  /** str.replace(pat, with): every non-overlapping occurrence of `pat`, scanning left to right. */
  function ReplaceAll(s: string, pat: string, with: string): string
    requires pat != []
    decreases |s|
  {
    if |s| < |pat| then s
    else if s[..|pat|] == pat then with + ReplaceAll(s[|pat|..], pat, with)
    else [s[0]] + ReplaceAll(s[1..], pat, with)
  }

  predicate OccursAt(s: string, pat: string, i: int)
  {
    0 <= i && i + |pat| <= |s| && s[i..i + |pat|] == pat
  }

  predicate Occurs(s: string, pat: string)
  {
    exists i :: 0 <= i <= |s| && OccursAt(s, pat, i)
  }

  /** A replacement of a pattern that does not occur changes nothing. */
  lemma {:induction false} ReplaceAbsent(s: string, pat: string, with: string)
    requires pat != [] && !Occurs(s, pat)
    ensures ReplaceAll(s, pat, with) == s
  {
    if |s| >= |pat| {
      assert !OccursAt(s, pat, 0);
      assert s[0..|pat|] == s[..|pat|];
      assert !Occurs(s[1..], pat) by {
        forall i | OccursAt(s[1..], pat, i)
          ensures false
        {
          assert s[1..][i..i + |pat|] == s[i + 1..i + 1 + |pat|];
          assert OccursAt(s, pat, i + 1);
        }
      }
      ReplaceAbsent(s[1..], pat, with);
      assert s == [s[0]] + s[1..];
    }
  }

  /** Removing a one-character pattern leaves none of it behind. */
  lemma {:induction false} RemoveCharGone(s: string, c: char)
    ensures c !in ReplaceAll(s, [c], "")
  {
    if |s| >= 1 {
      RemoveCharGone(s[1..], c);
    }
  }

  /** The longest prefix without whitespace. */
  function TakeWord(s: string): (w: string)
    ensures |w| <= |s| && w == s[..|w|]
    ensures forall i :: 0 <= i < |w| ==> !IsSpace(w[i])
    ensures |w| < |s| ==> IsSpace(s[|w|])
  {
    if s == [] || IsSpace(s[0]) then [] else [s[0]] + TakeWord(s[1..])
  }

  /** str.split() with no argument: the maximal runs of non-whitespace. */
  function Words(s: string): (ws: seq<string>)
    ensures forall k :: 0 <= k < |ws| ==> IsWord(ws[k])
    decreases |s|
  {
    var t := StripLeft(s);
    StripLeftStart(s);
    if t == [] then []
    else
      var w := TakeWord(t);
      [w] + Words(t[|w|..])
  }

  /** " ".join(ws) */
  function JoinSpaced(ws: seq<string>): string
  {
    if ws == [] then "" else if |ws| == 1 then ws[0] else ws[0] + [' '] + JoinSpaced(ws[1..])
  }

  predicate IsWord(w: string)
  {
    w != [] && forall i :: 0 <= i < |w| ==> !IsSpace(w[i])
  }

  lemma {:induction false} TakeWordOfWord(w: string, rest: string)
    requires IsWord(w) && (rest == [] || IsSpace(rest[0]))
    ensures TakeWord(w + rest) == w
  {
    if |w| > 1 {
      assert (w + rest)[1..] == w[1..] + rest;
      TakeWordOfWord(w[1..], rest);
    } else {
      assert (w + rest)[1..] == rest;
    }
  }

  /** A word followed by whitespace (or nothing) is split off first. */
  lemma WordsCons(w: string, tail: string)
    requires IsWord(w) && (tail == [] || IsSpace(tail[0]))
    ensures Words(w + tail) == [w] + Words(tail)
  {
    var s := w + tail;
    assert StripLeft(s) == s;
    TakeWordOfWord(w, tail);
    assert s[|w|..] == tail;
  }

  /** Leading whitespace does not change the split. */
  lemma WordsSkipSpace(c: char, rest: string)
    requires IsSpace(c)
    ensures Words([c] + rest) == Words(rest)
  {
    assert ([c] + rest)[1..] == rest;
    assert StripLeft([c] + rest) == StripLeft(rest);
  }

  /** split() undoes " ".join() on non-empty words without whitespace. */
  lemma {:induction false} WordsOfJoin(ws: seq<string>)
    requires forall k :: 0 <= k < |ws| ==> IsWord(ws[k])
    ensures Words(JoinSpaced(ws)) == ws
  {
    if ws == [] {
    } else if |ws| == 1 {
      WordsCons(ws[0], []);
      assert ws[0] + [] == ws[0];
    } else {
      var rest := JoinSpaced(ws[1..]);
      var spaced := [' '] + rest;
      assert JoinSpaced(ws) == ws[0] + spaced;
      WordsCons(ws[0], spaced);
      WordsSkipSpace(' ', rest);
      WordsOfJoin(ws[1..]);
      assert Words(JoinSpaced(ws)) == [ws[0]] + ws[1..];
    }
  }

  predicate AllAlnum(s: string)
  {
    forall i {:trigger IsAlnum(s[i])} :: 0 <= i < |s| ==> IsAlnum(s[i])
  }

  /** str.isalnum(): non-empty and every character a letter or a digit. */
  predicate IsAlnumWord(w: string)
  {
    w != [] && AllAlnum(w)
  }

  /** str.capitalize(): first character upper case, the rest lower case. */
  function Capitalize(w: string): (r: string)
    ensures |r| == |w|
    ensures forall i :: 0 <= i < |w| && IsAlnum(w[i]) ==> IsAlnum(r[i])
  {
    if w == [] then [] else [ToUpper(w[0])] + Lower(w[1..])
  }

  /** ''.join(word.capitalize() for word in ws if word.isalnum()) */
  function JoinCapitalized(ws: seq<string>): (r: string)
    ensures AllAlnum(r)
  {
    if ws == [] then ""
    else (if IsAlnumWord(ws[0]) then Capitalize(ws[0]) else "") + JoinCapitalized(ws[1..])
  }

  /** The special-case replacements, in the script's order. */
  function ReplaceSpecials(name: string): string
  {
    var noPossessive := ReplaceAll(name, "'s", "");
    var sos := ReplaceAll(noPossessive, "S.O.S.", "SOS");
    ReplaceAll(sos, "-", "")
  }

  /** clean_morty_name */
  function CleanMortyName(name: string): (r: string)
    ensures AllAlnum(r)
    ensures forall i :: 0 <= i < |r| ==> !IsSpace(r[i])
  {
    var r := JoinCapitalized(Words(ReplaceSpecials(DropMortySuffix(name))));
    assert forall i :: 0 <= i < |r| ==> IsAlnum(r[i]) && !IsSpace(r[i]);
    r
  }

  /** After the replacements no hyphen is left. */
  lemma SpecialsRemoveHyphens(name: string)
    ensures '-' !in ReplaceSpecials(name)
  {
    var sos := ReplaceAll(ReplaceAll(name, "'s", ""), "S.O.S.", "SOS");
    RemoveCharGone(sos, '-');
  }

  /** A word with a character other than a letter or a digit is dropped whole;
      alphanumeric words are kept, capitalised, in order. */
  lemma {:induction false} JoinCapitalizedKeeps(ws: seq<string>, w: string)
    ensures JoinCapitalized(ws + [w]) == JoinCapitalized(ws) + (if IsAlnumWord(w) then Capitalize(w) else "")
  {
    var tail := if IsAlnumWord(w) then Capitalize(w) else "";
    if ws == [] {
      assert ws + [w] == [w];
      assert JoinCapitalized([w]) == tail + JoinCapitalized([]);
    } else {
      var head := if IsAlnumWord(ws[0]) then Capitalize(ws[0]) else "";
      var mid := JoinCapitalized(ws[1..]);
      assert JoinCapitalized(ws + [w]) == head + JoinCapitalized(ws[1..] + [w]) by {
        assert (ws + [w])[0] == ws[0];
        assert (ws + [w])[1..] == ws[1..] + [w];
      }
      JoinCapitalizedKeeps(ws[1..], w);
      assert JoinCapitalized(ws) == head + mid by {
        if IsAlnumWord(ws[0]) { } else { }
      }
      AppendAssoc(head, mid, tail);
    }
  }

  lemma AppendAssoc(a: string, b: string, c: string)
    ensures a + (b + c) == (a + b) + c
  {
  }

  /** Every word capitalised, none dropped. */
  function CapitalizeEach(ws: seq<string>): (r: seq<string>)
    ensures |r| == |ws|
    ensures forall k :: 0 <= k < |ws| ==> r[k] == Capitalize(ws[k])
  {
    if ws == [] then [] else [Capitalize(ws[0])] + CapitalizeEach(ws[1..])
  }

  /** ''.join(ss) */
  function Concat(ss: seq<string>): string
  {
    if ss == [] then "" else ss[0] + Concat(ss[1..])
  }

  /** When every word is alphanumeric the filter drops nothing: the join is the
      concatenation of the capitalised words. */
  lemma {:induction false} JoinCapitalizedAll(ws: seq<string>)
    requires forall k :: 0 <= k < |ws| ==> IsAlnumWord(ws[k])
    ensures JoinCapitalized(ws) == Concat(CapitalizeEach(ws))
  {
    if ws != [] {
      JoinCapitalizedAll(ws[1..]);
      assert CapitalizeEach(ws)[1..] == CapitalizeEach(ws[1..]);
    }
  }

  /** A pattern holding a character the string lacks does not occur in it. */
  lemma AbsentCharNoOccurrence(s: string, pat: string, j: nat)
    requires j < |pat| && pat[j] !in s
    ensures !Occurs(s, pat)
  {
    forall i | 0 <= i <= |s|
      ensures !OccursAt(s, pat, i)
    {
      if i + |pat| <= |s| {
        assert s[i..i + |pat|][j] == s[i + j];
        assert s[i + j] in s;
      }
    }
  }

  /** A " "-join of alphanumeric words holds only letters, digits and spaces. */
  lemma {:induction false} JoinSpacedChars(ws: seq<string>)
    requires forall k :: 0 <= k < |ws| ==> IsAlnumWord(ws[k])
    ensures forall i :: 0 <= i < |JoinSpaced(ws)| ==> JoinSpaced(ws)[i] == ' ' || IsAlnum(JoinSpaced(ws)[i])
  {
    var s := JoinSpaced(ws);
    if |ws| == 1 {
      forall i | 0 <= i < |s|
        ensures s[i] == ' ' || IsAlnum(s[i])
      {
        assert IsAlnum(ws[0][i]);
      }
    } else if |ws| > 1 {
      JoinSpacedChars(ws[1..]);
      var rest := JoinSpaced(ws[1..]);
      assert s == ws[0] + [' '] + rest;
      forall i | 0 <= i < |s|
        ensures s[i] == ' ' || IsAlnum(s[i])
      {
        if i < |ws[0]| {
          assert s[i] == ws[0][i] && IsAlnum(ws[0][i]);
        } else if i > |ws[0]| {
          assert s[i] == rest[i - |ws[0]| - 1];
        }
      }
    }
  }

  /** None of the special cases applies to a string of letters, digits and spaces. */
  lemma SpecialsAbsent(s: string)
    requires forall i :: 0 <= i < |s| ==> s[i] == ' ' || IsAlnum(s[i])
    ensures ReplaceSpecials(s) == s
  {
    assert '\'' !in s && '.' !in s && '-' !in s;
    AbsentCharNoOccurrence(s, "'s", 0);
    ReplaceAbsent(s, "'s", "");
    AbsentCharNoOccurrence(s, "S.O.S.", 1);
    ReplaceAbsent(s, "S.O.S.", "SOS");
    AbsentCharNoOccurrence(s, "-", 0);
    ReplaceAbsent(s, "-", "");
  }

  /** An alphanumeric word is a word split() can return. */
  lemma AlnumWordsAreWords(ws: seq<string>)
    requires forall k :: 0 <= k < |ws| ==> IsAlnumWord(ws[k])
    ensures forall k :: 0 <= k < |ws| ==> IsWord(ws[k])
  {
    forall k | 0 <= k < |ws|
      ensures IsWord(ws[k])
    {
      forall i | 0 <= i < |ws[k]|
        ensures !IsSpace(ws[k][i])
      {
        assert IsAlnum(ws[k][i]);
      }
    }
  }

  /** clean_morty_name of alphanumeric words joined by single spaces, without a
      trailing " Morty": no replacement applies, split() gives the words back and
      the result is the concatenation of the capitalised words. */
  lemma CleanJoinedWords(ws: seq<string>)
    requires forall k :: 0 <= k < |ws| ==> IsAlnumWord(ws[k])
    requires !EndsWith(JoinSpaced(ws), MortySuffix)
    ensures CleanMortyName(JoinSpaced(ws)) == Concat(CapitalizeEach(ws))
  {
    var s := JoinSpaced(ws);
    JoinSpacedChars(ws);
    SpecialsAbsent(s);
    AlnumWordsAreWords(ws);
    WordsOfJoin(ws);
    JoinCapitalizedAll(ws);
    assert CleanMortyName(s) == JoinCapitalized(Words(ReplaceSpecials(DropMortySuffix(s))));
  }

  /** The image name on the wiki: "Morty" + cleaned name + "Front.png". */
  function ImageName(cleaned: string): (r: string)
  {
    ImagePrefix + cleaned + ImageSuffix
  }

  /** The cleaned name can be read back from the image name. */
  lemma ImageNameRoundTrip(cleaned: string)
    ensures |ImageName(cleaned)| == |cleaned| + 14
    ensures ImageName(cleaned)[5..|cleaned| + 5] == cleaned
  {
  }

  /** The local file name: "{number}_{name}.png". */
  function LocalFileName(number: string, name: string): string
  {
    number + "_" + name + ".png"
  }

  /** For a number without underscores, the first underscore of the local file
      name ends the number, so the number and the name can be read back from it. */
  lemma LocalFileNameRoundTrip(number: string, name: string)
    requires '_' !in number
    ensures var f := LocalFileName(number, name);
      && f[|number|] == '_' && (forall k :: 0 <= k < |number| ==> f[k] != '_')
      && f[..|number|] == number
      && f[|number| + 1..|f| - 4] == name && f[|f| - 4..] == ".png"
  {
  }
}
