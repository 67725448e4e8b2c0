/** The header's avatar fallback: the initials shown when the user has no
    picture. */
module Header {
  import opened Base
  import opened Text

  /** `s.split(' ')`: the pieces between single spaces, empty pieces
      included; there is always at least one piece. */
  function SplitOnSpace(s: string): (r: seq<string>)
    ensures |r| >= 1
    decreases |s|
  {
    if |s| == 0 then [""]
    else if s[0] == ' ' then [""] + SplitOnSpace(s[1..])
    else
      var r := SplitOnSpace(s[1..]);
      [[s[0]] + r[0]] + r[1..]
  }

  /** `pieces.join(' ')`. */
  function JoinWithSpace(pieces: seq<string>): string
    requires |pieces| >= 1
    decreases |pieces|
  {
    if |pieces| == 1 then pieces[0] else pieces[0] + " " + JoinWithSpace(pieces[1..])
  }

  /** Joining the pieces again gives the name back, and no piece holds a
      space. */
  lemma {:induction false} SplitThenJoin(s: string)
    ensures JoinWithSpace(SplitOnSpace(s)) == s
    ensures forall k :: 0 <= k < |SplitOnSpace(s)| ==> ' ' !in SplitOnSpace(s)[k]
    decreases |s|
  {
    if |s| > 0 {
      var r := SplitOnSpace(s[1..]);
      SplitThenJoin(s[1..]);
      if s[0] == ' ' {
        assert ([""] + r)[1..] == r;
        assert s == " " + s[1..];
      } else {
        var p := [[s[0]] + r[0]] + r[1..];
        assert s == [s[0]] + s[1..];
        if |r| > 1 {
          assert p[1..] == r[1..];
          assert JoinWithSpace(r) == r[0] + " " + JoinWithSpace(r[1..]);
        }
        forall k | 0 <= k < |p| ensures ' ' !in p[k] {
          if k == 0 {
            assert ' ' !in r[0];
          } else {
            assert p[k] == r[k];
          }
        }
      }
    }
  }

  /** `.map(n => n[0]).join('')`: the first character of every piece; an
      empty piece gives `undefined`, which `join` writes as nothing. */
  function FirstChars(pieces: seq<string>): string
    decreases |pieces|
  {
    if |pieces| == 0 then ""
    else (if |pieces[0]| > 0 then pieces[0][..1] else "") + FirstChars(pieces[1..])
  }

  /** The characters that start a word: not a space, and first or just after
      a space. `afterSpace` says whether the position before `s` counts as
      a space. */
  function WordStarts(s: string, afterSpace: bool): string
    decreases |s|
  {
    if |s| == 0 then ""
    else (if s[0] != ' ' && afterSpace then [s[0]] else "") + WordStarts(s[1..], s[0] == ' ')
  }

  /** The first characters of the pieces are exactly the word starts. */
  lemma {:induction false} FirstCharsAreWordStarts(s: string)
    ensures FirstChars(SplitOnSpace(s)) == WordStarts(s, true)
    ensures FirstChars(SplitOnSpace(s)[1..]) == WordStarts(s, false)
    decreases |s|
  {
    if |s| > 0 {
      var r := SplitOnSpace(s[1..]);
      FirstCharsAreWordStarts(s[1..]);
      if s[0] == ' ' {
        assert ([""] + r)[1..] == r;
      } else {
        var p := [[s[0]] + r[0]] + r[1..];
        assert p[1..] == r[1..];
        assert p[0][..1] == [s[0]];
      }
    }
  }

  /** `substring(0, 2)`. */
  function FirstTwo(s: string): (r: string)
    ensures r <= s && |r| == (if |s| < 2 then |s| else 2)
  {
    if |s| < 2 then s else s[..2]
  }

  /** `getUserInitials`: a missing or empty name gives "U"; otherwise the
      first characters of the space-separated pieces, upper-cased, at most
      two of them. */
  function Initials(name: Option<string>): (r: string)
    ensures |r| <= 2
    ensures name.None? || name == Some("") ==> r == "U"
    ensures forall k :: 0 <= k < |r| ==> !IsLowerAscii(r[k])
  {
    if name.None? || name.value == "" then "U"
    else FirstTwo(Upper(FirstChars(SplitOnSpace(name.value))))
  }

  /** The initials are the first two word starts of the name, upper-cased;
      so one word gives one letter and a name of spaces gives none. */
  lemma InitialsOfName(name: string)
    requires name != ""
    ensures Initials(Some(name)) == FirstTwo(Upper(WordStarts(name, true)))
    ensures (forall k :: 0 <= k < |name| ==> name[k] == ' ') ==> Initials(Some(name)) == ""
  {
    FirstCharsAreWordStarts(name);
    if forall k :: 0 <= k < |name| ==> name[k] == ' ' {
      NoWordStartsInSpaces(name, true);
    }
  }

  lemma {:induction false} NoWordStartsInSpaces(s: string, afterSpace: bool)
    requires forall k :: 0 <= k < |s| ==> s[k] == ' '
    ensures WordStarts(s, afterSpace) == ""
    decreases |s|
  {
    if |s| > 0 {
      NoWordStartsInSpaces(s[1..], true);
    }
  }

  /** The name the avatar uses: the profile's full name unless it is
      missing or empty, else the e-mail address. */
  function AvatarName(fullName: Option<string>, email: Option<string>): (r: Option<string>)
    ensures fullName.Some? && fullName.value != "" ==> r == fullName
    ensures fullName.None? || fullName == Some("") ==> r == email
  {
    if fullName.Some? && fullName.value != "" then fullName else email
  }

  /** The avatar shows "U" when neither a non-empty name nor an e-mail is
      known, and a name that does not start with a space leads with its own
      first character, upper-cased. */
  lemma AvatarInitials(fullName: Option<string>, email: Option<string>)
    ensures (fullName.None? || fullName == Some("")) && (email.None? || email == Some(""))
            ==> Initials(AvatarName(fullName, email)) == "U"
    ensures fullName.Some? && fullName.value != "" && fullName.value[0] != ' '
            ==> Initials(AvatarName(fullName, email))[0] == UpperChar(fullName.value[0])
  {
    if fullName.Some? && fullName.value != "" && fullName.value[0] != ' ' {
      var n := fullName.value;
      InitialsOfName(n);
      assert WordStarts(n, true)[0] == n[0];
    }
  }

  /** Word starts of a concatenation: those of each part, the second part
      continuing from the first's last character. */
  lemma {:induction false} WordStartsAppend(a: string, b: string, afterSpace: bool)
    ensures WordStarts(a + b, afterSpace)
            == WordStarts(a, afterSpace) + WordStarts(b, if |a| == 0 then afterSpace else a[|a| - 1] == ' ')
    decreases |a|
  {
    if |a| > 0 {
      var head := if a[0] != ' ' && afterSpace then [a[0]] else "";
      var next := if |a| == 1 then a[0] == ' ' else a[|a| - 1] == ' ';
      assert (a + b)[1..] == a[1..] + b;
      assert (a + b)[0] == a[0];
      if |a| > 1 {
        assert a[1..][|a| - 2] == a[|a| - 1];
      }
      calc {
        WordStarts(a + b, afterSpace);
        head + WordStarts(a[1..] + b, a[0] == ' ');
        { WordStartsAppend(a[1..], b, a[0] == ' '); }
        head + (WordStarts(a[1..], a[0] == ' ') + WordStarts(b, next));
        (head + WordStarts(a[1..], a[0] == ' ')) + WordStarts(b, next);
        WordStarts(a, afterSpace) + WordStarts(b, next);
      }
      assert next == (a[|a| - 1] == ' ');
    } else {
      assert a + b == b;
    }
  }

  /** A stretch without spaces has a word start only at its front. */
  lemma {:induction false} WordStartsOfWord(w: string, afterSpace: bool)
    requires ' ' !in w
    ensures WordStarts(w, false) == ""
    ensures |w| > 0 && afterSpace ==> WordStarts(w, afterSpace) == [w[0]]
    decreases |w|
  {
    if |w| > 0 {
      WordStartsOfWord(w[1..], false);
    }
  }

  /** A one-word name gives its first letter, upper-cased; a two-word name
      gives the first letters of both. */
  lemma InitialsOfWords(first: string, second: string)
    requires first != "" && second != "" && ' ' !in first && ' ' !in second
    ensures Initials(Some(first)) == [UpperChar(first[0])]
    ensures Initials(Some(first + " " + second)) == [UpperChar(first[0]), UpperChar(second[0])]
  {
    InitialsOfName(first);
    WordStartsOfWord(first, true);
    WordStartsOfWord(second, true);
    InitialsOfName(first + " " + second);
    WordStartsAppend(first, " " + second, true);
    WordStartsAppend(" ", second, false);
    assert WordStarts(first + " " + second, true) == [first[0], second[0]] by {
      assert first + " " + second == first + (" " + second);
    }
  }
}
