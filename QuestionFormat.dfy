/**
 * The opening message the backend posts for a new question and the bot's
 * parser that recovers the question id from a message a manager replies to.
 */
module QuestionFormat {
  import opened Wrappers
  import opened PyText

  /** The separator both sides agree on. */
  const Marker: string := "Question ID: "

  /** Everything `topic_text` puts before the marker. */
  function Header(userName: string, questionText: string): string {
    "New question from " + userName + ":\n\n" + questionText + "\n\n"
  }

  /** `topic_text`: the header, the marker, then the user id. */
  function TopicText(userName: string, questionText: string, userId: string): (r: string)
    ensures |r| == |Header(userName, questionText)| + |Marker| + |userId|
  {
    Header(userName, questionText) + Marker + userId
  }

  /** Name of the forum topic opened for a question. */
  function TopicName(userName: string): (r: string)
    ensures |r| == 14 + |userName| && r[14..] == userName
  {
    "Dialogue with " + userName
  }

  /**
   * `extract_question_id`: split on the marker; if there is a second piece,
   * strip it and parse it with `int`, mapping a ValueError to None.
   */
  function ExtractQuestionId(text: string): (r: Option<int>)
    ensures r.Some? ==> Contains(text, Marker)
  {
    SplitSeveral(text, Marker);
    var parts := Split(text, Marker);
    if |parts| > 1 then PyInt(Strip(parts[1])) else None
  }

  /** A text without the marker carries no question id. */
  lemma NoMarkerNoId(text: string)
    requires !Contains(text, Marker)
    ensures ExtractQuestionId(text) == None
  {
    SplitNone(text, Marker);
  }

  /** An occurrence at `j` fixes the characters of `s` from `j` on. */
  lemma OccursChar(s: string, p: string, j: nat, k: nat)
    requires OccursAt(s, p, j) && k < |p|
    ensures s[j + k] == p[k]
  {
    assert s[j..j + |p|][k] == s[j + k];
  }

  /** One mismatching character rules out an occurrence. */
  lemma Mismatch(s: string, p: string, j: nat, k: nat)
    requires k < |p| && (j + |p| <= |s| ==> s[j + k] != p[k])
    ensures !OccursAt(s, p, j)
  {
    if OccursAt(s, p, j) {
      OccursChar(s, p, j, k);
    }
  }

  lemma MarkerChars()
    ensures |Marker| == 13 && Marker[0] == 'Q' && Marker[12] == ' '
    ensures forall k :: 0 <= k < |Marker| ==> Marker[k] != '\n'
  {
  }

  /** The start of `topic_text` in `t`, up to the question text, for a name of length `ln`. */
  ghost predicate NameLayout(t: string, ln: nat) {
    && |t| >= 21 + ln
    && t[..18] == "New question from "
    && !Contains(t[18..18 + ln], Marker)
    && t[18 + ln..21 + ln] == ":\n\n"
  }

  /** The question text of length `lt` in `t` and the blank line after it. */
  ghost predicate TextLayout(t: string, ln: nat, lt: nat) {
    && |t| >= 23 + ln + lt
    && !Contains(t[21 + ln..21 + ln + lt], Marker)
    && t[21 + ln + lt..23 + ln + lt] == "\n\n"
  }

  /**
   * No marker starts at `j` before the question text: not in the fixed words
   * (none of them is 'Q'), not inside the name (excluded by hypothesis), and
   * not across the end of the name (the colon and newline after it do not
   * fit the marker).
   */
  lemma NoMarkerInName(t: string, ln: nat, j: nat)
    requires NameLayout(t, ln) && j < 21 + ln
    ensures !OccursAt(t, Marker, j)
  {
    if j < 18 {
      NoMarkerInWords(t, ln, j);
    } else if j + 13 <= 18 + ln {
      OccursInSlice(t, Marker, 18, 18 + ln, j - 18);
    } else {
      NoMarkerAfterName(t, ln, j);
    }
  }

  /** No marker starts in the words "New question from ". */
  lemma NoMarkerInWords(t: string, ln: nat, j: nat)
    requires NameLayout(t, ln) && j < 18
    ensures !OccursAt(t, Marker, j)
  {
    MarkerChars();
    assert t[..18][j] == t[j] != 'Q';
    Mismatch(t, Marker, j, 0);
  }

  /** No marker starts late in the name or in the ":\n\n" after it. */
  lemma NoMarkerAfterName(t: string, ln: nat, j: nat)
    requires NameLayout(t, ln) && j < 21 + ln && 18 + ln < j + 13
    ensures !OccursAt(t, Marker, j)
  {
    MarkerChars();
    if j < 18 + ln {
      var k := 18 + ln - j;
      if k <= 11 {
        assert t[18 + ln..21 + ln][1] == t[19 + ln] == '\n';
        Mismatch(t, Marker, j, k + 1);
      } else {
        assert t[18 + ln..21 + ln][0] == t[18 + ln] == ':';
        Mismatch(t, Marker, j, 12);
      }
    } else {
      assert t[18 + ln..21 + ln][j - 18 - ln] == t[j] != 'Q';
      Mismatch(t, Marker, j, 0);
    }
  }

  /**
   * No marker starts at `j` in the question text or the blank line after it:
   * inside the text it is excluded by hypothesis, and an occurrence reaching
   * past the text would contain a newline.
   */
  lemma NoMarkerInText(t: string, ln: nat, lt: nat, j: nat)
    requires TextLayout(t, ln, lt) && 21 + ln <= j < 23 + ln + lt
    ensures !OccursAt(t, Marker, j)
  {
    MarkerChars();
    if j + 13 <= 21 + ln + lt {
      OccursInSlice(t, Marker, 21 + ln, 21 + ln + lt, j - 21 - ln);
    } else if j < 21 + ln + lt {
      assert t[21 + ln + lt..23 + ln + lt][0] == t[21 + ln + lt] == '\n';
      Mismatch(t, Marker, j, 21 + ln + lt - j);
    } else {
      assert t[21 + ln + lt..23 + ln + lt][j - 21 - ln - lt] == t[j] != 'Q';
      Mismatch(t, Marker, j, 0);
    }
  }

  /** `topic_text` has both layouts. */
  lemma TopicLayout(userName: string, questionText: string, userId: string)
    requires !Contains(userName, Marker) && !Contains(questionText, Marker)
    ensures NameLayout(TopicText(userName, questionText, userId), |userName|)
    ensures TextLayout(TopicText(userName, questionText, userId), |userName|, |questionText|)
  {
    var t := TopicText(userName, questionText, userId);
    var ln, lt := |userName|, |questionText|;
    assert t[18..18 + ln] == userName;
    assert t[21 + ln..21 + ln + lt] == questionText;
  }

  /**
   * When neither the user name nor the question text contains the marker,
   * the first marker in `topic_text` is the one placed before the user id.
   */
  lemma FirstMarkerInTopic(userName: string, questionText: string, userId: string)
    requires !Contains(userName, Marker) && !Contains(questionText, Marker)
    ensures Find(TopicText(userName, questionText, userId), Marker) == Some(|Header(userName, questionText)|)
  {
    var t := TopicText(userName, questionText, userId);
    var h := Header(userName, questionText);
    var ln, lt := |userName|, |questionText|;
    TopicLayout(userName, questionText, userId);
    forall j: nat | j < |h| ensures !OccursAt(t, Marker, j) {
      if j < 21 + ln {
        NoMarkerInName(t, ln, j);
      } else {
        NoMarkerInText(t, ln, lt, j);
      }
    }
    assert t[|h|..|h| + |Marker|] == Marker;
    FindExact(t, Marker, |h|);
  }

  /** Under the same condition `topic_text` splits into the header followed by the pieces of the user id. */
  lemma TopicSplit(userName: string, questionText: string, userId: string)
    requires !Contains(userName, Marker) && !Contains(questionText, Marker)
    ensures Split(TopicText(userName, questionText, userId), Marker)
            == [Header(userName, questionText)] + Split(userId, Marker)
  {
    var t := TopicText(userName, questionText, userId);
    var h := Header(userName, questionText);
    FirstMarkerInTopic(userName, questionText, userId);
    SplitFirst(t, Marker, |h|);
    assert t[..|h|] == h;
    assert t[|h| + |Marker|..] == userId;
  }

  /**
   * What the bot recovers from `topic_text`: `int` of the stripped user id
   * up to its own first marker, if any.
   */
  lemma ExtractFromTopic(userName: string, questionText: string, userId: string)
    requires !Contains(userName, Marker) && !Contains(questionText, Marker)
    ensures ExtractQuestionId(TopicText(userName, questionText, userId))
            == PyInt(Strip(Split(userId, Marker)[0]))
  {
    TopicSplit(userName, questionText, userId);
    ExtractAfterHeader(TopicText(userName, questionText, userId), Header(userName, questionText), userId);
  }

  /** A text that splits into one piece followed by the pieces of `rest` yields the id at the head of `rest`. */
  lemma ExtractAfterHeader(text: string, h: string, rest: string)
    requires Split(text, Marker) == [h] + Split(rest, Marker)
    ensures ExtractQuestionId(text) == PyInt(Strip(Split(rest, Marker)[0]))
  {
    assert Split(text, Marker)[1] == Split(rest, Marker)[0];
  }

  /**
   * Round trip: a decimal user id embedded by the backend is the question id
   * the bot parses back.
   */
  lemma RoundTrip(userName: string, questionText: string, n: nat)
    requires !Contains(userName, Marker) && !Contains(questionText, Marker)
    ensures ExtractQuestionId(TopicText(userName, questionText, Decimal(n))) == Some(n)
  {
    DecimalRoundTrip(n);
    DigitsIdRecovered(userName, questionText, Decimal(n), n);
  }

  /** A user id made of digits alone comes back as the integer it spells. */
  lemma DigitsIdRecovered(userName: string, questionText: string, d: string, n: int)
    requires !Contains(userName, Marker) && !Contains(questionText, Marker)
    requires |d| > 0 && AllDigits(d) && PyInt(d) == Some(n)
    ensures ExtractQuestionId(TopicText(userName, questionText, d)) == Some(n)
  {
    ExtractFromTopic(userName, questionText, d);
    DigitsPiece(d, n);
  }

  /** A run of digits has no marker, so its first piece is itself, already stripped. */
  lemma DigitsPiece(d: string, n: int)
    requires |d| > 0 && AllDigits(d) && PyInt(d) == Some(n)
    ensures PyInt(Strip(Split(d, Marker)[0])) == Some(n)
  {
    MarkerChars();
    DigitsFirstPiece(d, Marker, 0, n);
  }

  /**
   * A user id that does not start like an integer literal (with a digit, a
   * sign or a space), such as "alice7", is never recovered, so replies to
   * its topic cannot be routed back.
   */
  lemma NonNumericIdLost(userName: string, questionText: string, userId: string)
    requires !Contains(userName, Marker) && !Contains(questionText, Marker)
    requires |userId| > 0 && !IsDigit(userId[0]) && !IsSpace(userId[0])
    requires userId[0] != '+' && userId[0] != '-'
    ensures ExtractQuestionId(TopicText(userName, questionText, userId)) == None
  {
    ExtractFromTopic(userName, questionText, userId);
    var piece := Split(userId, Marker)[0];
    if Find(userId, Marker).Some? {
      assert piece == userId[..Find(userId, Marker).value];
    }
    if piece != [] {
      assert piece[0] == userId[0];
      StripKeepsFirst(piece);
      StripKeepsFirst(Strip(piece));
    }
  }

  /** In a topic whose question text starts with the marker, that marker comes first. */
  lemma SpoofedFirstMarker(userName: string, rest: string, userId: string)
    requires !Contains(userName, Marker)
    ensures Find(TopicText(userName, Marker + rest, userId), Marker) == Some(21 + |userName|)
  {
    var ln := |userName|;
    var t := TopicText(userName, Marker + rest, userId);
    assert t[18..18 + ln] == userName;
    assert NameLayout(t, ln);
    forall j: nat | j < 21 + ln ensures !OccursAt(t, Marker, j) {
      NoMarkerInName(t, ln, j);
    }
    assert t[21 + ln..34 + ln] == Marker;
    FindExact(t, Marker, 21 + ln);
  }

  /** The first marker after a number and a blank line is the one right after them. */
  lemma MarkerAfterNumber(d: string, tail: string)
    requires AllDigits(d)
    ensures Find(d + "\n\n" + Marker + tail, Marker) == Some(|d| + 2)
  {
    var s := d + "\n\n" + Marker + tail;
    MarkerChars();
    forall j: nat | j < |d| + 2 ensures !OccursAt(s, Marker, j) {
      assert s[j] == (d + "\n\n")[j] != 'Q';
      Mismatch(s, Marker, j, 0);
    }
    assert s[|d| + 2..|d| + 15] == Marker;
    FindExact(s, Marker, |d| + 2);
  }

  /** The second piece of such a topic is the number and the blank line after it. */
  lemma SpoofedSecondPiece(userName: string, d: string, userId: string)
    requires !Contains(userName, Marker) && AllDigits(d)
    ensures |Split(TopicText(userName, Marker + d, userId), Marker)| > 1
    ensures Split(TopicText(userName, Marker + d, userId), Marker)[1] == d + "\n\n"
  {
    var ln := |userName|;
    var t := TopicText(userName, Marker + d, userId);
    SpoofedFirstMarker(userName, d, userId);
    assert t[34 + ln..] == d + "\n\n" + Marker + userId;
    NumberPiece(t, 21 + ln, d, userId);
  }

  /** After a first marker at `i` come a number, a blank line and a marker: the second piece is the number and the blank line. */
  lemma NumberPiece(t: string, i: nat, d: string, tail: string)
    requires AllDigits(d) && Find(t, Marker) == Some(i)
    requires t[i + |Marker|..] == d + "\n\n" + Marker + tail
    ensures |Split(t, Marker)| > 1 && Split(t, Marker)[1] == d + "\n\n"
  {
    MarkerAfterNumber(d, tail);
    SecondPieceMiddle(t, Marker, i, |d| + 2);
    assert t[i + |Marker|..i + |Marker| + |d| + 2] == (d + "\n\n" + Marker + tail)[..|d| + 2];
  }

  /**
   * The side condition of the round trip is needed: a question text that is
   * exactly the marker followed by `str(n)` makes the bot parse `n`,
   * whatever the real user id is.
   */
  lemma QuestionTextSpoofsId(userName: string, n: nat, userId: string)
    requires !Contains(userName, Marker)
    ensures ExtractQuestionId(TopicText(userName, Marker + Decimal(n), userId)) == Some(n)
  {
    var d := Decimal(n);
    SpoofedSecondPiece(userName, d, userId);
    StripTrailing(d, "\n\n");
    StripUnchanged(d);
    DecimalRoundTrip(n);
  }

  /**
   * Reference reading of `extract_question_id` without `split`, when the
   * marker occurs once, at `i`: the rest of the text, stripped and parsed.
   */
  lemma ExtractSingleMarker(text: string, i: nat)
    requires Find(text, Marker) == Some(i) && !Contains(text[i + |Marker|..], Marker)
    ensures ExtractQuestionId(text) == PyInt(Strip(text[i + |Marker|..]))
  {
    SecondPieceLast(text, Marker, i);
  }

  /**
   * Reference reading of `extract_question_id` without `split`: the segment
   * between the first marker, at `i`, and the next marker, `j` characters
   * after the end of the first, stripped and parsed.
   */
  lemma ExtractBetweenMarkers(text: string, i: nat, j: nat)
    requires Find(text, Marker) == Some(i) && Find(text[i + |Marker|..], Marker) == Some(j)
    ensures ExtractQuestionId(text) == PyInt(Strip(text[i + |Marker|..i + |Marker| + j]))
  {
    SecondPieceMiddle(text, Marker, i, j);
  }
}
