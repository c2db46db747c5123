/** The client address both rate limiters take from a proxy's X-Forwarded-For header: the
    first comma-separated entry, trimmed. */
module ClientAddress {
  import opened Wrappers
  import opened Text

  /** `header.split(",")[0].trim()` as written. Java's `split` drops trailing empty pieces,
      so a header made only of commas splits into no pieces and reading piece 0 throws. */
  function FirstForwardedAsWritten(header: string): (r: Result<string, string>)
  {
    var parts := JavaSplit(header, ',');
    if |parts| == 0 then Failure("ArrayIndexOutOfBoundsException") else Success(JavaTrim(parts[0]))
  }

  /** The text before the first comma (the whole header when there is none), trimmed. */
  function FirstForwarded(header: string): (r: string)
    ensures ',' !in header ==> r == JavaTrim(header)
    ensures ',' in header ==> r == JavaTrim(header[..IndexOf(header, ',')])
  {
    if ',' in header then JavaTrim(header[..IndexOf(header, ',')]) else JavaTrim(header)
  }

  /** A full split whose input is nothing but separators has only empty pieces. */
  lemma {:induction false} SplitOfSeparatorsIsEmpty(s: string, sep: char)
    requires forall k :: 0 <= k < |s| ==> s[k] == sep
    ensures forall k :: 0 <= k < |SplitAll(s, sep)| ==> SplitAll(s, sep)[k] == ""
  {
    if |s| > 0 {
      SplitOfSeparatorsIsEmpty(s[1..], sep);
    }
  }

  /** A header of commas alone splits into no pieces. */
  lemma CommasOnlyFail(header: string)
    requires |header| > 0 && forall k :: 0 <= k < |header| ==> header[k] == ','
    ensures FirstForwardedAsWritten(header).Failure?
  {
    assert header[0] == ',';
    SplitOfSeparatorsIsEmpty(header, ',');
    DropTrailingEmptyOfEmpties(SplitAll(header, ','));
  }

  /** Dropping trailing empty pieces from pieces that are all empty leaves none. */
  lemma {:induction false} DropTrailingEmptyOfEmpties(xs: seq<string>)
    requires forall k :: 0 <= k < |xs| ==> xs[k] == ""
    ensures DropTrailingEmpty(xs) == []
  {
    if |xs| > 0 {
      DropTrailingEmptyOfEmpties(xs[..|xs| - 1]);
    }
  }

  /** The header as written throws exactly when it is non-empty and made only of commas. */
  lemma AsWrittenFailsOnCommas(header: string)
    ensures FirstForwardedAsWritten(header).Failure? <==>
              |header| > 0 && forall k :: 0 <= k < |header| ==> header[k] == ','
  {
    if |header| > 0 && forall k :: 0 <= k < |header| ==> header[k] == ',' {
      CommasOnlyFail(header);
    } else if ',' in header {
      var i :| 0 <= i < |header| && header[i] != ',';
      NonSeparatorKeepsAPiece(header, ',', i);
    }
  }

  /** A character other than the separator leaves a non-empty piece, so the Java split keeps
      at least one piece. */
  lemma NonSeparatorKeepsAPiece(s: string, sep: char, i: nat)
    requires i < |s| && s[i] != sep
    ensures |JavaSplit(s, sep)| > 0
  {
    if sep in s {
      var all := SplitAll(s, sep);
      var k := PieceHolding(s, sep, i);
    }
  }

  /** The index of a non-empty piece of the full split, when some character is not `sep`. */
  lemma {:induction false} PieceHolding(s: string, sep: char, i: nat) returns (k: nat)
    requires i < |s| && s[i] != sep
    ensures k < |SplitAll(s, sep)| && SplitAll(s, sep)[k] != ""
  {
    if s[0] == sep {
      var k' := PieceHolding(s[1..], sep, i - 1);
      k := k' + 1;
    } else {
      k := 0;
    }
  }

  /** Where the code as written returns an address, it is the corrected one. */
  lemma FirstForwardedAgrees(header: string)
    requires FirstForwardedAsWritten(header).Success?
    ensures FirstForwardedAsWritten(header).value == FirstForwarded(header)
  {
    if ',' in header {
      var i := IndexOf(header, ',');
      SplitAllFirst(header, ',', i);
      var parts := JavaSplit(header, ',');
      assert parts == SplitAll(header, ',')[..|parts|];
    }
  }

  /** The smallest header the code as written cannot handle. */
  lemma SingleCommaThrows()
    ensures FirstForwardedAsWritten(",").Failure?
    ensures FirstForwarded(",") == ""
  {
    AsWrittenFailsOnCommas(",");
    assert ","[..0] == "";
  }
}
