/**
 * The query strings of the standup command: the caller's filter words
 * joined by single spaces, and each query formed as
 * `filter + " " + type + ":" + day`.
 */
module Filters {

  predicate HasNoSpace(w: string)
  {
    forall i :: 0 <= i < |w| ==> w[i] != ' '
  }

  /** Words joined with single spaces, as JavaScript's `join(' ')` does. */
  function JoinWords(ws: seq<string>): (s: string)
    ensures |ws| == 0 ==> s == ""
    ensures |ws| >= 1 ==> |s| >= |ws[0]| && s[..|ws[0]|] == ws[0]
    ensures |ws| >= 2 ==> |s| > |ws[0]| && s[|ws[0]|] == ' '
  {
    if |ws| == 0 then ""
    else if |ws| == 1 then ws[0]
    else ws[0] + " " + JoinWords(ws[1..])
  }

  /** Cuts a text at every space: n spaces give n + 1 pieces, some possibly empty. */
  function SplitAtSpaces(s: string): (ws: seq<string>)
    ensures |ws| >= 1
  {
    if s == [] then [""]
    else
      var rest := SplitAtSpaces(s[1..]);
      if s[0] == ' ' then [""] + rest else [[s[0]] + rest[0]] + rest[1..]
  }

  /** A word without spaces is a single piece. */
  lemma {:induction false} SplitWord(w: string)
    requires HasNoSpace(w)
    ensures SplitAtSpaces(w) == [w]
  {
    if w != [] {
      SplitWord(w[1..]);
      assert [w[0]] + w[1..] == w;
    }
  }

  /** Gluing a character onto the first piece commutes with appending more pieces. */
  lemma GlueFirst(c: char, left: seq<string>, right: seq<string>)
    requires |left| >= 1
    ensures [[c] + (left + right)[0]] + (left + right)[1..] == [[c] + left[0]] + left[1..] + right
  {
    assert (left + right)[0] == left[0] && (left + right)[1..] == left[1..] + right;
  }

  /** Splitting at a space splits the text before it and the text after it independently. */
  lemma {:induction false} SplitAtIndex(s: string, i: nat)
    requires i < |s| && s[i] == ' '
    ensures SplitAtSpaces(s) == SplitAtSpaces(s[..i]) + SplitAtSpaces(s[i + 1..])
  {
    if i > 0 {
      var t, u := s[1..], s[..i];
      var left, right := SplitAtSpaces(u[1..]), SplitAtSpaces(s[i + 1..]);
      assert SplitAtSpaces(t) == left + right by {
        SplitAtIndex(t, i - 1);
        assert u[1..] == t[..i - 1] && t[i..] == s[i + 1..];
      }
      assert u[0] == s[0];
      if s[0] == ' ' {
        assert SplitAtSpaces(u) == [""] + left;
      } else {
        assert SplitAtSpaces(u) == [[s[0]] + left[0]] + left[1..];
        GlueFirst(s[0], left, right);
      }
    }
  }

  /** Splitting at a space splits the two sides independently. */
  lemma SplitAround(a: string, b: string)
    ensures SplitAtSpaces(a + " " + b) == SplitAtSpaces(a) + SplitAtSpaces(b)
  {
    var s := a + " " + b;
    SplitAtIndex(s, |a|);
    assert s[..|a|] == a && s[|a| + 1..] == b;
  }

  /** Joining space-free words and splitting the result gives the words back. */
  lemma {:induction false} SplitJoin(ws: seq<string>)
    requires |ws| >= 1
    requires forall i :: 0 <= i < |ws| ==> HasNoSpace(ws[i])
    ensures SplitAtSpaces(JoinWords(ws)) == ws
  {
    SplitWord(ws[0]);
    if |ws| > 1 {
      SplitAround(ws[0], JoinWords(ws[1..]));
      SplitJoin(ws[1..]);
      assert [ws[0]] + ws[1..] == ws;
    }
  }

  /**
   * The caller's filter: the words of the first command argument joined by
   * single spaces, or the empty string when there is no argument or the
   * argument holds no words.
   */
  function CallerFilter(args: seq<seq<string>>): (filter: string)
    ensures |args| == 0 || args[0] == [] ==> filter == ""
  {
    if |args| > 0 then JoinWords(args[0]) else ""
  }

  /** The filter reads back as the caller's words when they hold no spaces. */
  lemma CallerFilterWords(args: seq<seq<string>>)
    requires |args| > 0 && |args[0]| >= 1
    requires forall i :: 0 <= i < |args[0]| ==> HasNoSpace(args[0][i])
    ensures SplitAtSpaces(CallerFilter(args)) == args[0]
  {
    SplitJoin(args[0]);
  }

  /** One task query: the filter, a space, then `type:day`. */
  function TypedFilter(filter: string, queryType: string, day: string): (q: string)
    ensures |q| == |filter| + |queryType| + |day| + 2
    ensures q[..|filter|] == filter && q[|filter|] == ' '
    ensures q[|filter| + 1..] == queryType + ":" + day
  {
    filter + " " + queryType + ":" + day
  }

  /** The plain completed query reads `<filter> completed:<day>`. */
  lemma CompletedQueryText(filter: string, day: string)
    ensures TypedFilter(filter, "completed", day) == filter + " completed:" + day
  {
    assert " " + "completed" + ":" == " completed:";
  }

  /** The due query reads `<filter> due:<day>`. */
  lemma DueQueryText(filter: string, day: string)
    ensures TypedFilter(filter, "due", day) == filter + " due:" + day
  {
    assert " " + "due" + ":" == " due:";
  }

  /** A plain query adds exactly one `type:day` word to the filter's words. */
  lemma QueryWords(filter: string, queryType: string, day: string)
    requires HasNoSpace(queryType) && HasNoSpace(day)
    ensures SplitAtSpaces(TypedFilter(filter, queryType, day))
            == SplitAtSpaces(filter) + [queryType + ":" + day]
  {
    assert TypedFilter(filter, queryType, day) == filter + " " + (queryType + ":" + day);
    SplitAround(filter, queryType + ":" + day);
    SplitWord(queryType + ":" + day);
  }

  /** A plain completed query reads as the filter's words and one `completed:<day>` word. */
  lemma CompletedQueryWords(filter: string, day: string)
    requires HasNoSpace(day)
    ensures SplitAtSpaces(filter + " completed:" + day) == SplitAtSpaces(filter) + ["completed:" + day]
  {
    CompletedQueryText(filter, day);
    QueryWords(filter, "completed", day);
    assert "completed" + ":" + day == "completed:" + day;
  }

  /** A due query reads as the filter's words and one `due:<day>` word. */
  lemma DueQueryWords(filter: string, day: string)
    requires HasNoSpace(day)
    ensures SplitAtSpaces(filter + " due:" + day) == SplitAtSpaces(filter) + ["due:" + day]
  {
    DueQueryText(filter, day);
    QueryWords(filter, "due", day);
    assert "due" + ":" + day == "due:" + day;
  }

  /** The text added to `completed` for the previous-day query when the window is widened. */
  function Widening(todayText: string): (w: string)
    ensures "completed" + w + ":" == "completedBefore:" + todayText + " completedAfter:"
  {
    "Before:" + todayText + " completedAfter"
  }

  /** Gluing two space-free texts gives a space-free text. */
  lemma NoSpaceConcat(a: string, b: string)
    requires HasNoSpace(a) && HasNoSpace(b)
    ensures HasNoSpace(a + b)
  {
    forall i | 0 <= i < |a + b|
      ensures (a + b)[i] != ' '
    {
      if i >= |a| {
        assert (a + b)[i] == b[i - |a|];
      }
    }
  }

  /**
   * The widened previous-day query ends in two date constraints: completed
   * before today and completed after the previous working day, the second
   * date being the one the query builder appends after the type.
   */
  lemma WidenedQuery(filter: string, todayText: string, prevText: string)
    ensures TypedFilter(filter, "completed" + Widening(todayText), prevText)
            == filter + " completedBefore:" + todayText + " completedAfter:" + prevText
  {
    var before := "completedBefore:" + todayText;
    var queryType := "completed" + Widening(todayText);
    assert queryType == before + " completedAfter";
    assert queryType + ":" + prevText == before + " completedAfter:" + prevText;
  }

  /** Two space-free words after a text add exactly those two words to its words. */
  lemma TwoWordsAfter(filter: string, a: string, b: string)
    requires HasNoSpace(a) && HasNoSpace(b)
    ensures SplitAtSpaces(filter + " " + (a + " " + b)) == SplitAtSpaces(filter) + [a, b]
  {
    SplitAround(filter, a + " " + b);
    SplitAround(a, b);
    SplitWord(a);
    SplitWord(b);
  }

  /** A date constraint word: a space-free key followed by a space-free date. */
  lemma ConstraintWord(key: string, day: string)
    requires key == "completedBefore:" || key == "completedAfter:"
    requires HasNoSpace(day)
    ensures HasNoSpace(key + day)
  {
    assert HasNoSpace(key);
    NoSpaceConcat(key, day);
  }

  /**
   * Read as space-separated words, the widened query is the filter's words
   * followed by a `completedBefore:` and a `completedAfter:` word.
   */
  lemma WidenedQueryWords(filter: string, todayText: string, prevText: string)
    requires HasNoSpace(todayText) && HasNoSpace(prevText)
    ensures SplitAtSpaces(filter + " completedBefore:" + todayText + " completedAfter:" + prevText)
            == SplitAtSpaces(filter) + ["completedBefore:" + todayText, "completedAfter:" + prevText]
  {
    var before := "completedBefore:" + todayText;
    var after := "completedAfter:" + prevText;
    assert filter + " completedBefore:" + todayText + " completedAfter:" + prevText
           == filter + " " + (before + " " + after);
    ConstraintWord("completedBefore:", todayText);
    ConstraintWord("completedAfter:", prevText);
    TwoWordsAfter(filter, before, after);
  }

  /**
   * The previous-work-day query: `completed:<day>` on the previous working
   * day, or, when the window is widened, the widening text spliced in
   * between `completed` and the `:<day>` the builder appends.
   */
  function PreviousDayQuery(filter: string, todayText: string, prevText: string, widen: bool): (q: string)
    ensures widen ==> q == filter + " completedBefore:" + todayText + " completedAfter:" + prevText
    ensures !widen ==> q == filter + " completed:" + prevText
  {
    WidenedQuery(filter, todayText, prevText);
    CompletedQueryText(filter, prevText);
    assert "completed" + "" == "completed";
    TypedFilter(filter, "completed" + (if widen then Widening(todayText) else ""), prevText)
  }
}
