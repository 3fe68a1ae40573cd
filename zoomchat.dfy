/**
 * The chat scraper of the conference bot: every chat entry carries an
 * accessibility label shaped like "<from> to <to>, <time>, <text>" (or, in the
 * Russian client, "<from> Кому <to>, <time>, <text>"), and `get_messages`
 * turns the labels into records with the keys from, to, time and text.
 */
module ZoomChat {
  import opened Wrappers
  import opened PyStr

  /** One scraped message: the dict with the keys "from", "to", "time" and "text". */
  datatype ChatMessage = ChatMessage(from: string, to: string, time: string, text: string)

  /** The ways unpacking a label fails; each is a `ValueError` raised by a tuple unpack. */
  datatype LabelError =
    | TooFewFields       // fewer than two commas: not enough values to unpack (expected 3)
    | NoSeparator        // no separator in the from/to piece: not enough values to unpack (expected 2, got 1)
    | TooManySeparators  // the separator more than once: too many values to unpack (expected 2)

  const Comma: string := ","
  const Russian: string := " Кому "
  const English: string := " to "

  /** The dict the scraper appends for one message. */
  function AsDict(m: ChatMessage): (d: map<string, string>)
    ensures d.Keys == {"from", "to", "time", "text"}
    ensures d["from"] == m.from && d["to"] == m.to && d["time"] == m.time && d["text"] == m.text
  {
    map["from" := m.from, "to" := m.to, "time" := m.time, "text" := m.text]
  }

  /** The separator between sender and recipient: the Russian one wherever it occurs, the English one otherwise. */
  function Separator(fromTo: string): (sep: string)
    ensures sep == Russian || sep == English
    ensures sep == Russian <==> !Absent(fromTo, Russian)
  {
    if Find(fromTo, Russian).Some? then Russian else English
  }

  /** A one-character needle is absent exactly when the character does not occur. */
  lemma AbsentElement(s: string, c: char)
    ensures Absent(s, [c]) <==> c !in s
  {
    if c in s {
      var i :| 0 <= i < |s| && s[i] == c;
      assert OccursAt(s, [c], i);
    } else {
      assert forall i: nat :: OccursAt(s, [c], i) ==> s[i] == c;
    }
  }

  /** A character missing from `s` is missing from `Strip(s)`. */
  lemma StripKeepsOut(s: string, c: char)
    requires c !in s
    ensures c !in Strip(s)
  {
    var k := StripSlice(s);
    var r := Strip(s);
    forall j | 0 <= j < |r| ensures r[j] != c {
      assert r[j] == s[k + j];
    }
  }

  /**
   * One label, parsed as `get_messages` does: `mark.split(",", 2)` unpacked
   * into three pieces, the from/to piece split on every occurrence of the
   * separator and unpacked into two, every field stripped.
   */
  function ParseLabel(mark: string): (r: Result<ChatMessage, LabelError>)
    ensures r.Ok? ==> Stripped(r.value.from) && Stripped(r.value.to) && Stripped(r.value.time) && Stripped(r.value.text)
    ensures r.Ok? ==> ',' !in r.value.from && ',' !in r.value.to && ',' !in r.value.time
  {
    var parts := Split(mark, Comma, 2);
    if |parts| != 3 then Err(TooFewFields)
    else
      SplitPiecesAbsent(mark, Comma, 2);
      AbsentElement(parts[0], ',');
      AbsentElement(parts[1], ',');
      ParsePieces(parts[0], parts[1], parts[2])
  }

  /** The second stage of `ParseLabel`: the from/to piece is split on its separator, and every field stripped. */
  function ParsePieces(fromTo: string, time: string, message: string): (r: Result<ChatMessage, LabelError>)
    requires ',' !in fromTo && ',' !in time
    ensures r != Err(TooFewFields)
    ensures r.Ok? ==> Stripped(r.value.from) && Stripped(r.value.to) && Stripped(r.value.time) && Stripped(r.value.text)
    ensures r.Ok? ==> ',' !in r.value.from && ',' !in r.value.to && ',' !in r.value.time
  {
    var sep := Separator(fromTo);
    var people := Split(fromTo, sep, -1);
    if |people| < 2 then Err(NoSeparator)
    else if |people| > 2 then Err(TooManySeparators)
    else
      SplitJoin(fromTo, sep, -1);
      assert fromTo == people[0] + sep + people[1];
      StripKeepsOut(people[0], ',');
      StripKeepsOut(people[1], ',');
      StripKeepsOut(time, ',');
      Ok(ChatMessage(Strip(people[0]), Strip(people[1]), Strip(time), Strip(message)))
  }

  /** Unpacking into three pieces fails exactly when the label has fewer than two commas. */
  lemma TooFewFieldsExactly(mark: string)
    ensures ParseLabel(mark) == Err(TooFewFields) <==> multiset(mark)[','] < 2
  {
    SplitLength(mark, Comma, 2);
    CountElement(mark, ',');
  }

  /** A label is cut at its first two commas only: any later comma stays in the third piece. */
  lemma CommaPieces(fromTo: string, time: string, rest: string)
    requires ',' !in fromTo && ',' !in time
    ensures Split(fromTo + Comma + time + Comma + rest, Comma, 2) == [fromTo, time, rest]
  {
    var tail := time + Comma + rest;
    var mark := fromTo + Comma + tail;
    assert fromTo + Comma + time + Comma + rest == mark;
    FindFirst(fromTo, Comma, tail);
    FindFirst(time, Comma, rest);
    SplitAfter(fromTo, Comma, tail, 2);
    SplitAfter(time, Comma, rest, 1);
    NoCut(rest, Comma, 0);
  }

  /**
   * Once the label has its two commas, the outcome depends on how many times
   * (non-overlapping, as `str.count` counts) the chosen separator occurs in
   * the from/to piece: never, exactly once, or more; and on success the
   * sender is what precedes the first separator, the recipient what follows
   * it, and the text is the whole rest of the label, commas included.
   */
  lemma ParseFields(fromTo: string, time: string, rest: string)
    requires ',' !in fromTo && ',' !in time
    ensures var sep := Separator(fromTo);
            var c := Count(fromTo, sep);
            var r := ParseLabel(fromTo + Comma + time + Comma + rest);
            (c == 0 <==> r == Err(NoSeparator)) &&
            (c == 1 <==> r.Ok?) &&
            (c >= 2 <==> r == Err(TooManySeparators)) &&
            (r.Ok? ==> Find(fromTo, sep).Some? &&
                       r.value.from == Strip(fromTo[..Find(fromTo, sep).value]) &&
                       r.value.to == Strip(fromTo[Find(fromTo, sep).value + |sep|..]) &&
                       r.value.time == Strip(time) &&
                       r.value.text == Strip(rest))
  {
    CommaPieces(fromTo, time, rest);
    assert ParseLabel(fromTo + Comma + time + Comma + rest) == ParsePieces(fromTo, time, rest);
    var sep := Separator(fromTo);
    SplitLength(fromTo, sep, -1);
    if Count(fromTo, sep) == 1 {
      var i := Find(fromTo, sep).value;
      var tail := Split(fromTo[i + |sep|..], sep, -2);
      assert Split(fromTo, sep, -1) == [fromTo[..i]] + tail;
    }
  }

  /** How the client renders a message into its label, e.g. "Вы Кому Все, 08:48, uu". */
  function Render(m: ChatMessage, sep: string): string
  {
    m.from + sep + m.to + ", " + m.time + ", " + m.text
  }

  /**
   * Parsing inverts rendering, provided the fields are stripped, the first
   * three hold no comma, the separator occurs in the rendered from/to piece
   * only where it was put, and an English label holds no Russian separator.
   */
  lemma RenderRoundTrip(m: ChatMessage, sep: string)
    requires sep == Russian || (sep == English && Absent(m.from + English + m.to, Russian))
    requires Stripped(m.from) && Stripped(m.to) && Stripped(m.time) && Stripped(m.text)
    requires ',' !in m.from && ',' !in m.to && ',' !in m.time
    requires forall i: nat :: i < |m.from| ==> !OccursAt(m.from + sep + m.to, sep, i)
    requires Absent(m.to, sep)
    ensures ParseLabel(Render(m, sep)) == Ok(m)
  {
    RenderCuts(m, sep);
    StripNoPadding(m.from);
    StripNoPadding(m.to);
    StripNoPadding(m.time);
    StripNoPadding(m.text);
  }

  /** A rendered label parses into the stripped names and the stripped space-led fields. */
  lemma RenderCuts(m: ChatMessage, sep: string)
    requires sep == Russian || (sep == English && Absent(m.from + English + m.to, Russian))
    requires ',' !in m.from && ',' !in m.to && ',' !in m.time
    requires forall i: nat :: i < |m.from| ==> !OccursAt(m.from + sep + m.to, sep, i)
    requires Absent(m.to, sep)
    ensures ParseLabel(Render(m, sep)) == Ok(ChatMessage(Strip(m.from), Strip(m.to), Strip(" " + m.time), Strip(" " + m.text)))
  {
    var fromTo := m.from + sep + m.to;
    var time, text := " " + m.time, " " + m.text;
    RenderPieces(m, sep);
    ThreePieces(Render(m, sep), fromTo, time, text);
    RenderedSeparator(m.from, sep, m.to);
    SplitOnceAt(m.from, sep, m.to);
    PiecesOnce(fromTo, time, text, m.from, m.to);
  }

  /** The separator put between the names is the one the parser picks. */
  lemma RenderedSeparator(x: string, sep: string, y: string)
    requires sep == Russian || (sep == English && Absent(x + English + y, Russian))
    ensures Separator(x + sep + y) == sep
  {
    if sep == Russian {
      assert (x + sep + y)[|x|..|x| + |sep|] == sep;
      assert OccursAt(x + sep + y, Russian, |x|);
    }
  }

  /** A rendered label is cut into the from/to piece and the two space-led fields. */
  lemma RenderPieces(m: ChatMessage, sep: string)
    requires sep == Russian || sep == English
    requires ',' !in m.from && ',' !in m.to && ',' !in m.time
    ensures Split(Render(m, sep), Comma, 2) == [m.from + sep + m.to, " " + m.time, " " + m.text]
  {
    var fromTo, time, text := m.from + sep + m.to, " " + m.time, " " + m.text;
    assert ',' !in fromTo;
    assert Render(m, sep) == fromTo + Comma + time + Comma + text;
    CommaPieces(fromTo, time, text);
  }

  /** A label with three comma pieces goes on to the second stage with them. */
  lemma ThreePieces(mark: string, fromTo: string, time: string, rest: string)
    requires ',' !in fromTo && ',' !in time
    requires Split(mark, Comma, 2) == [fromTo, time, rest]
    ensures ParseLabel(mark) == ParsePieces(fromTo, time, rest)
  {
  }

  /** The second stage succeeds when the from/to piece splits into exactly two. */
  lemma PiecesOnce(fromTo: string, time: string, text: string, x: string, y: string)
    requires ',' !in fromTo && ',' !in time
    requires Split(fromTo, Separator(fromTo), -1) == [x, y]
    ensures ParsePieces(fromTo, time, text) == Ok(ChatMessage(Strip(x), Strip(y), Strip(time), Strip(text)))
  {
  }

  /** A stripped field survives `strip`, with or without the one space the label puts before it. */
  lemma StripNoPadding(x: string)
    requires Stripped(x)
    ensures Strip(x) == x && Strip(" " + x) == x
  {
    assert [] + x + [] == x;
    StripPadded([], x, []);
    assert " " + x + [] == " " + x;
    StripPadded(" ", x, []);
  }

  /** The label quoted beside the parser, "Вы Кому Все, 08:48, uu", gives from "Вы", to "Все", time "08:48", text "uu". */
  lemma WorkedExample()
    ensures ParseLabel("Вы Кому Все, 08:48, uu") == Ok(ChatMessage("Вы", "Все", "08:48", "uu"))
  {
    var m := ChatMessage("Вы", "Все", "08:48", "uu");
    ExampleLabels();
    forall i: nat | i < 2 ensures !OccursAt(m.from + Russian + m.to, Russian, i) {
      assert (m.from + Russian + m.to)[i] != ' ';
    }
    RenderRoundTrip(m, Russian);
  }

  /**
   * A from/to piece where two occurrences of " to " overlap, "Go to to Bob":
   * `split` cuts at the leftmost one only, so the recipient keeps the second.
   */
  lemma OverlappingSeparator()
    ensures OccursAt("Go to to Bob", English, 2) && OccursAt("Go to to Bob", English, 5)
    ensures ParseLabel("Go to to Bob, 1:00, hi") == Ok(ChatMessage("Go", "to Bob", "1:00", "hi"))
  {
    TwoOverlapping();
    var m := ChatMessage("Go", "to Bob", "1:00", "hi");
    ExampleLabels();
    OverlapOnlyOnce();
    RenderRoundTrip(m, English);
  }

  /** In "Go to to Bob" nothing before the first " to " starts one, and nothing after it holds one. */
  lemma OverlapOnlyOnce()
    ensures Absent("Go to to Bob", Russian)
    ensures forall i: nat :: i < 2 ==> !OccursAt("Go to to Bob", English, i)
    ensures Absent("to Bob", English)
  {
    var fromTo, to := "Go to to Bob", "to Bob";
    AbsentByElement(fromTo, Russian, 1);
    forall i: nat | i < 2 ensures !OccursAt(fromTo, English, i) {
      assert fromTo[i] != ' ' && fromTo[i..i + 4][0] == fromTo[i];
    }
    forall i: nat ensures !OccursAt(to, English, i) {
      if i + 4 <= |to| {
        assert to[i..i + 4][0] == to[i] && to[i..i + 4][1] == to[i + 1];
      }
    }
  }

  /** The labels of the two examples, as `Render` builds them. */
  lemma ExampleLabels()
    ensures Render(ChatMessage("Вы", "Все", "08:48", "uu"), Russian) == "Вы Кому Все, 08:48, uu"
    ensures "Go" + English + "to Bob" == "Go to to Bob"
    ensures Render(ChatMessage("Go", "to Bob", "1:00", "hi"), English) == "Go to to Bob, 1:00, hi"
  {
  }

  lemma TwoOverlapping()
    ensures OccursAt("Go to to Bob", English, 2) && OccursAt("Go to to Bob", English, 5)
  {
  }

  /**
   * `get_messages` over the labels of the chat entries, in page order: one
   * record per label, or the error of the first label that does not unpack
   * (the exception escapes and no list is returned).
   */
  method GetMessages(labels: seq<string>) returns (r: Result<seq<ChatMessage>, LabelError>)
    ensures r.Ok? <==> forall i :: 0 <= i < |labels| ==> ParseLabel(labels[i]).Ok?
    ensures r.Ok? ==> |r.value| == |labels|
    ensures r.Ok? ==> forall i :: 0 <= i < |labels| ==> r.value[i] == ParseLabel(labels[i]).value
    ensures r.Err? ==> exists i :: 0 <= i < |labels| && ParseLabel(labels[i]) == Err(r.error) &&
                                   forall j :: 0 <= j < i ==> ParseLabel(labels[j]).Ok?
  {
    var chat: seq<ChatMessage> := [];
    for n := 0 to |labels|
      invariant |chat| == n
      invariant forall i :: 0 <= i < n ==> ParseLabel(labels[i]).Ok? && chat[i] == ParseLabel(labels[i]).value
    {
      var parsed := ParseLabel(labels[n]);
      if parsed.Err? {
        return Err(parsed.error);
      }
      ghost var before := chat;
      chat := chat + [parsed.value];
      forall i | 0 <= i < n + 1 ensures ParseLabel(labels[i]).Ok? && chat[i] == ParseLabel(labels[i]).value {
        if i < n { assert chat[i] == before[i]; }
      }
    }
    return Ok(chat);
  }
}
