/** Display formatting helpers of the web client: initials, full names, word
    capitalisation, truncation and the name shown for a user. `undefined`, `null` and the
    empty string are all falsy in JavaScript; `None` stands for the first two. Case mapping
    is ASCII-only. */
module Format {
  import opened Wrappers
  import opened Text

  /** `charAt(0)`: the first character, or "" for the empty string. */
  function FirstChar(s: string): (r: string)
    ensures |r| <= 1 && (s != "" ==> r == [s[0]]) && (s == "" ==> r == "")
  {
    if |s| > 0 then s[..1] else ""
  }

  /** Falsy in JavaScript: absent or empty. */
  predicate Blank(s: Option<string>) {
    s.None? || s.value == ""
  }

  // ---------------------------------------------------------------- getInitials

  /** Splitting at maximal runs of the characters `ws` accepts: a leading run gives a
      leading empty piece, a trailing run a trailing one, and "" gives [""]. */
  function SplitRuns(s: string, ws: char -> bool): (r: seq<string>)
    ensures |r| >= 1
    decreases |s|
  {
    if |s| == 0 then [""]
    else if ws(s[0]) then [""] + SplitRuns(StripStart(s[1..], ws), ws)
    else
      var r := SplitRuns(s[1..], ws);
      [[s[0]] + r[0]] + r[1..]
  }

  /** `split(/\s+/)`. */
  function SplitWs(s: string): (r: seq<string>)
    ensures |r| >= 1
  {
    SplitRuns(s, IsJsSpace)
  }

  /** A word without separators joins the first piece of what follows it. */
  lemma {:induction false} SplitRunsAfterWord(w: string, rest: string, ws: char -> bool)
    requires forall i :: 0 <= i < |w| ==> !ws(w[i])
    ensures SplitRuns(w + rest, ws) == [w + SplitRuns(rest, ws)[0]] + SplitRuns(rest, ws)[1..]
  {
    var r := SplitRuns(rest, ws);
    if |w| > 0 {
      var s := w + rest;
      assert s[0] == w[0] && s[1..] == w[1..] + rest;
      SplitRunsAfterWord(w[1..], rest, ws);
      var t := SplitRuns(s[1..], ws);
      assert t[0] == w[1..] + r[0] && t[1..] == r[1..];
      assert SplitRuns(s, ws) == [[w[0]] + t[0]] + t[1..];
      assert [w[0]] + (w[1..] + r[0]) == w + r[0];
    } else {
      assert w + rest == rest && w + r[0] == r[0];
    }
  }

  /** Two words with one separator between them split into the two words. */
  lemma SplitRunsTwoWords(first: string, sep: char, last: string, ws: char -> bool)
    requires forall i :: 0 <= i < |first| ==> !ws(first[i])
    requires last != [] && forall i :: 0 <= i < |last| ==> !ws(last[i])
    requires ws(sep)
    ensures SplitRuns(first + [sep] + last, ws) == [first, last]
  {
    var tail := [sep] + last;
    assert tail[0] == sep && tail[1..] == last;
    assert StripStart(last, ws) == last;
    assert SplitRuns(tail, ws) == [""] + SplitRuns(last, ws);
    SplitRunsAfterWord(last, "", ws);
    assert last + "" == last;
    assert SplitRuns(last, ws) == [last];
    var r := SplitRuns(tail, ws);
    assert r == ["", last];
    assert r[0] == "" && r[1..] == [last];
    assert first + "" == first;
    SplitRunsAfterWord(first, tail, ws);
    assert first + [sep] + last == first + tail;
  }

  /** A string that neither starts nor ends with white space trims to itself. */
  lemma TrimmedAlready(s: string, ws: char -> bool)
    requires s != [] && !ws(s[0]) && !ws(s[|s| - 1])
    ensures Strip(s, ws) == s
  {
  }

  /** `getInitials`: "" for a falsy name; otherwise the upper-cased first character of the
      first word, followed by that of the last word when there are several. */
  function GetInitials(name: Option<string>): (r: string)
    ensures Blank(name) ==> r == ""
    ensures |r| <= 2
    ensures forall i :: 0 <= i < |r| ==> !IsAsciiLower(r[i])
  {
    if Blank(name) then ""
    else
      var names := SplitWs(JsTrim(name.value));
      if |names| == 1 then Upper(FirstChar(names[0]))
      else Upper(FirstChar(names[0]) + FirstChar(names[|names| - 1]))
  }

  /** A single word gives its first letter, upper-cased. */
  lemma InitialsOfOneWord(w: string)
    requires w != [] && forall i :: 0 <= i < |w| ==> !IsJsSpace(w[i])
    ensures GetInitials(Some(w)) == [UpperChar(w[0])]
  {
    TrimmedAlready(w, IsJsSpace);
    SplitRunsAfterWord(w, "", IsJsSpace);
    assert w + "" == w;
  }

  /** "first last" gives the two first letters, upper-cased. */
  lemma InitialsOfTwoWords(first: string, last: string)
    requires first != [] && forall i :: 0 <= i < |first| ==> !IsJsSpace(first[i])
    requires last != [] && forall i :: 0 <= i < |last| ==> !IsJsSpace(last[i])
    ensures GetInitials(Some(first + " " + last)) == [UpperChar(first[0]), UpperChar(last[0])]
  {
    var s := first + " " + last;
    assert s[0] == first[0] && s[|s| - 1] == last[|last| - 1];
    TrimmedAlready(s, IsJsSpace);
    SplitRunsTwoWords(first, ' ', last, IsJsSpace);
  }

  // ---------------------------------------------------------------- formatName

  /** `name?.trim() || ''`. */
  function TrimmedOrEmpty(name: Option<string>): (r: string)
    ensures r != [] ==> !IsJsSpace(r[0]) && !IsJsSpace(r[|r| - 1])
  {
    if name.Some? then JsTrim(name.value) else ""
  }

  /** `formatName`: both names trimmed; "Anonymous" when both are blank, the other one when
      one is, and "first last" otherwise. The result is never empty and never starts or ends
      with white space. */
  function FormatName(firstName: Option<string>, lastName: Option<string>): (r: string)
    ensures r != [] && !IsJsSpace(r[0]) && !IsJsSpace(r[|r| - 1])
    ensures TrimmedOrEmpty(firstName) == "" && TrimmedOrEmpty(lastName) == "" ==> r == "Anonymous"
    ensures TrimmedOrEmpty(firstName) != "" && TrimmedOrEmpty(lastName) != "" ==>
              r == TrimmedOrEmpty(firstName) + " " + TrimmedOrEmpty(lastName)
    ensures TrimmedOrEmpty(firstName) == "" && TrimmedOrEmpty(lastName) != "" ==> r == TrimmedOrEmpty(lastName)
    ensures TrimmedOrEmpty(firstName) != "" && TrimmedOrEmpty(lastName) == "" ==> r == TrimmedOrEmpty(firstName)
  {
    var first, last := TrimmedOrEmpty(firstName), TrimmedOrEmpty(lastName);
    if first == "" && last == "" then
      assert !IsJsSpace('A') && !IsJsSpace('s');
      "Anonymous"
    else if first == "" then last
    else if last == "" then first
    else
      var r := first + " " + last;
      assert r[0] == first[0] && r[|r| - 1] == last[|last| - 1];
      r
  }

  /** The initials of a formatted two-part name are the two first letters. */
  lemma InitialsOfFormattedName(first: string, last: string)
    requires first != [] && forall i :: 0 <= i < |first| ==> !IsJsSpace(first[i])
    requires last != [] && forall i :: 0 <= i < |last| ==> !IsJsSpace(last[i])
    ensures GetInitials(Some(FormatName(Some(first), Some(last)))) == [UpperChar(first[0]), UpperChar(last[0])]
  {
    TrimmedAlready(first, IsJsSpace);
    TrimmedAlready(last, IsJsSpace);
    InitialsOfTwoWords(first, last);
  }

  // ---------------------------------------------------------------- capitalizeWords

  /** `word.charAt(0).toUpperCase() + word.slice(1)`. */
  function CapitalizeFirst(w: string): string {
    Upper(FirstChar(w)) + (if |w| > 0 then w[1..] else "")
  }

  function MapCapitalize(ws: seq<string>): (r: seq<string>)
    ensures |r| == |ws|
  {
    if |ws| == 0 then [] else [CapitalizeFirst(ws[0])] + MapCapitalize(ws[1..])
  }

  /** `capitalizeWords`: "" for falsy text; otherwise lower-case, split on single spaces,
      capitalise each piece and join with single spaces. */
  function CapitalizeWords(text: Option<string>): string {
    if Blank(text) then "" else Join(MapCapitalize(SplitAll(Lower(text.value), ' ')), ' ')
  }

  /** The same result character by character: a character is upper-cased when it opens the
      text (and `atStart` holds) or follows a space, and kept otherwise. */
  function CapitalizeEach(s: string, atStart: bool): (r: string)
    ensures |r| == |s|
    ensures forall i :: 0 <= i < |s| ==>
              r[i] == if (i == 0 && atStart) || (i > 0 && s[i - 1] == ' ') then UpperChar(s[i]) else s[i]
  {
    if |s| == 0 then ""
    else [if atStart then UpperChar(s[0]) else s[0]] + CapitalizeEach(s[1..], s[0] == ' ')
  }

  lemma JoinFirstSpace(r: seq<string>)
    requires |r| >= 1
    ensures Join([""] + r, ' ') == " " + Join(r, ' ')
  {
    assert ([""] + r)[1..] == r;
  }

  /** Split, capitalise and join is the per-character rule; with `atStart` false the first
      piece is left as it is. */
  lemma {:induction false} SplitCapitalizeJoin(s: string)
    ensures var xs := SplitAll(s, ' ');
            Join(MapCapitalize(xs), ' ') == CapitalizeEach(s, true)
            && Join([xs[0]] + MapCapitalize(xs[1..]), ' ') == CapitalizeEach(s, false)
  {
    var xs := SplitAll(s, ' ');
    if |s| == 0 {
      assert xs == [""];
    } else if s[0] == ' ' {
      var r := SplitAll(s[1..], ' ');
      SplitCapitalizeJoin(s[1..]);
      assert xs == [""] + r;
      assert MapCapitalize(xs) == [""] + MapCapitalize(r);
      JoinFirstSpace(MapCapitalize(r));
      assert xs[1..] == r;
      assert [xs[0]] + MapCapitalize(xs[1..]) == [""] + MapCapitalize(r);
      assert CapitalizeEach(s, true) == " " + CapitalizeEach(s[1..], true);
      assert CapitalizeEach(s, false) == " " + CapitalizeEach(s[1..], true);
    } else {
      var r := SplitAll(s[1..], ' ');
      SplitCapitalizeJoin(s[1..]);
      assert xs == [[s[0]] + r[0]] + r[1..];
      var tail := MapCapitalize(r[1..]);
      assert xs[1..] == r[1..];
      JoinConsFirst(s[0], [r[0]] + tail, ' ');
      assert ([r[0]] + tail)[0] == r[0] && ([r[0]] + tail)[1..] == tail;
      assert [[s[0]] + r[0]] + tail == [[s[0]] + ([r[0]] + tail)[0]] + ([r[0]] + tail)[1..];
      assert Join([xs[0]] + MapCapitalize(xs[1..]), ' ') == [s[0]] + CapitalizeEach(s[1..], false);
      assert MapCapitalize(xs) == [CapitalizeFirst(xs[0])] + tail;
      assert CapitalizeFirst(xs[0]) == [UpperChar(s[0])] + r[0];
      JoinConsFirst(UpperChar(s[0]), [r[0]] + tail, ' ');
      assert [[UpperChar(s[0])] + r[0]] + tail == [[UpperChar(s[0])] + ([r[0]] + tail)[0]] + ([r[0]] + tail)[1..];
    }
  }

  /** Lower-casing maps each character on its own and keeps spaces where they were. */
  lemma LowerAt(text: string, i: nat)
    requires i < |text|
    ensures Lower(text)[i] == LowerChar(text[i])
    ensures Lower(text)[i] == ' ' <==> text[i] == ' '
  {
  }

  /** `capitalizeWords` keeps the length and upper-cases exactly the first character of the
      text and every character after a space; every other character is lower-cased. */
  lemma CapitalizeWordsPerCharacter(text: string)
    requires text != ""
    ensures var r := CapitalizeWords(Some(text));
            |r| == |text|
            && forall i :: 0 <= i < |text| ==>
                 r[i] == if i == 0 || text[i - 1] == ' ' then UpperChar(LowerChar(text[i])) else LowerChar(text[i])
  {
    var low := Lower(text);
    SplitCapitalizeJoin(low);
    var r := CapitalizeWords(Some(text));
    assert r == CapitalizeEach(low, true);
    forall i | 0 <= i < |text|
      ensures r[i] == if i == 0 || text[i - 1] == ' ' then UpperChar(LowerChar(text[i])) else LowerChar(text[i])
    {
      LowerAt(text, i);
      if i > 0 {
        LowerAt(text, i - 1);
      }
    }
  }

  // ---------------------------------------------------------------- truncateText

  /** `slice(0, end)`'s end position: a negative end counts back from the length. */
  function SliceEnd(length: int, end: int): (k: int)
    requires length >= 0
    ensures 0 <= k <= length
    ensures 0 <= end ==> k == if end <= length then end else length
  {
    if end < 0 then (if length + end > 0 then length + end else 0)
    else if end <= length then end else length
  }

  /** `truncateText`: falsy or short text is returned as it is; longer text is cut at
      `maxLength`, trimmed, and given "..." */
  function TruncateText(text: Option<string>, maxLength: int): (r: Option<string>)
    ensures Blank(text) || |text.value| <= maxLength ==> r == text
    ensures !Blank(text) && |text.value| > maxLength ==>
              r.Some? && |r.value| >= 3 && r.value[|r.value| - 3..] == "..."
  {
    if Blank(text) || |text.value| <= maxLength then text
    else Some(JsTrim(text.value[..SliceEnd(|text.value|, maxLength)]) + "...")
  }

  /** Cut text is at most `maxLength` characters before the "...", and those are the
      trimmed start of the text. */
  lemma TruncatedIsTrimmedPrefix(text: string, maxLength: int)
    requires 0 <= maxLength < |text|
    ensures var r := TruncateText(Some(text), maxLength).value;
            |r| <= maxLength + 3 && r[..|r| - 3] == JsTrim(text[..maxLength])
  {
  }

  /** A negative maximum counts back from the end, as `slice` does: "abcdef" at -2 keeps
      "abcd"; at or beyond minus the length nothing is kept but the "...". */
  lemma NegativeMaximumCountsFromEnd(text: string, k: int)
    requires text != "" && k > 0
    ensures k < |text| ==> TruncateText(Some(text), -k) == Some(JsTrim(text[..|text| - k]) + "...")
    ensures k >= |text| ==> TruncateText(Some(text), -k) == Some("...")
  {
    if k >= |text| {
      assert SliceEnd(|text|, -k) == 0;
      assert text[..0] == "";
      assert JsTrim("") == "";
      assert "" + "..." == "...";
    }
  }

  // ---------------------------------------------------------------- getDisplayName

  datatype DisplayUser = DisplayUser(firstName: Option<string>, lastName: Option<string>,
                                     name: Option<string>, email: Option<string>)

  /** `getDisplayName`: the formatted first and last names when either is non-empty, else
      the name, else the text of the email before its first '@', else "Anonymous". */
  function GetDisplayName(user: DisplayUser): (r: string)
    ensures !Blank(user.firstName) || !Blank(user.lastName) ==> r == FormatName(user.firstName, user.lastName)
    ensures Blank(user.firstName) && Blank(user.lastName) && !Blank(user.name) ==> r == user.name.value
    ensures Blank(user.firstName) && Blank(user.lastName) && Blank(user.name) && !Blank(user.email) ==> '@' !in r
    ensures Blank(user.firstName) && Blank(user.lastName) && Blank(user.name) && Blank(user.email) ==> r == "Anonymous"
  {
    if !Blank(user.firstName) || !Blank(user.lastName) then FormatName(user.firstName, user.lastName)
    else if !Blank(user.name) then user.name.value
    else if !Blank(user.email) then SplitAll(user.email.value, '@')[0]
    else "Anonymous"
  }

  /** With only an email, the local part is shown. */
  lemma DisplayNameFromEmail(local: string, domain: string)
    requires '@' !in local
    ensures GetDisplayName(DisplayUser(None, None, None, Some(local + "@" + domain))) == local
  {
    var email := local + "@" + domain;
    assert email[|local|] == '@' && email[..|local|] == local;
    SplitAllFirst(email, '@', |local|);
  }

  /** A first name of spaces is non-empty, so it wins over the name and the email, and
      formats to "Anonymous". */
  lemma BlankFirstNameHidesEmail()
    ensures GetDisplayName(DisplayUser(Some(" "), None, Some("Ada"), Some("ada@example.com"))) == "Anonymous"
  {
    assert JsTrim(" ") == "";
  }
}
