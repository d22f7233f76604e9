/**
 * The flat transcript handed to the remote tutoring call:
 * `chatHistory.map(msg => `${msg.role}: ${msg.content}`).join("\n")`.
 * Beside the serialisation itself this module gives a reader for it and
 * proves that the transcript determines the history it was built from
 * whenever no message content spans several lines.
 */
module Transcript {
  import opened Session

  function RoleName(r: Role): string {
    match r
    case User => "user"
    case Model => "model"
  }

  /** One turn as rendered for the prompt: a role prefix followed by the
      content, which reads back as the same turn. */
  function Line(m: Message): (r: string)
    ensures |r| > |m.content|
    ensures ParseLine(r) == Some(m)
  {
    var l := RoleName(m.role) + ": " + m.content;
    assert m.role.User? ==> l[..6] == "user: " && l[6..] == m.content;
    assert m.role.Model? ==> l[..7] == "model: " && l[7..] == m.content && l[..6][0] == 'm';
    l
  }

  function Lines(h: seq<Message>): (r: seq<string>)
    ensures |r| == |h|
    ensures forall i :: 0 <= i < |h| ==> r[i] == Line(h[i])
  {
    if h == [] then [] else [Line(h[0])] + Lines(h[1..])
  }

  /** `Array.prototype.join`: nothing for no element, no separator after the last. */
  function Join(ls: seq<string>, sep: string): (r: string)
    ensures ls == [] ==> r == ""
    ensures ls != [] ==> |r| >= |ls[0]| && r[..|ls[0]|] == ls[0]
  {
    if ls == [] then ""
    else if |ls| == 1 then ls[0]
    else ls[0] + sep + Join(ls[1..], sep)
  }

  /** The prompt's `chatHistory`: the rendered turns joined by newlines. It
      starts with the first turn, and only the empty history gives the empty
      transcript. */
  function TranscriptOf(h: seq<Message>): (r: string)
    ensures r == "" <==> h == []
    ensures h != [] ==> |r| >= |Line(h[0])| && r[..|Line(h[0])|] == Line(h[0])
  {
    Join(Lines(h), "\n")
  }

  /** `String.prototype.split("\n")`: always at least one piece. */
  function SplitLines(s: string): (r: seq<string>)
    ensures |r| >= 1
  {
    if s == [] then [""]
    else
      var rest := SplitLines(s[1..]);
      if s[0] == '\n' then [""] + rest
      else [[s[0]] + rest[0]] + rest[1..]
  }

  /** Reads one rendered turn back; a line carrying neither role prefix is refused. */
  function ParseLine(l: string): Option<Message> {
    if |l| >= 6 && l[..6] == "user: " then Some(Message(User, l[6..]))
    else if |l| >= 7 && l[..7] == "model: " then Some(Message(Model, l[7..]))
    else None
  }

  function ParseLines(ls: seq<string>): Option<seq<Message>> {
    if ls == [] then Some([])
    else
      match ParseLine(ls[0])
      case None => None
      case Some(m) =>
        match ParseLines(ls[1..])
        case None => None
        case Some(rest) => Some([m] + rest)
  }

  function ParseTranscript(s: string): Option<seq<Message>> {
    if s == "" then Some([]) else ParseLines(SplitLines(s))
  }

  predicate SingleLine(h: seq<Message>) {
    forall i :: 0 <= i < |h| ==> '\n' !in h[i].content
  }

  /** Each turn reads back as itself. */
  lemma ParseLineOfLine(m: Message)
    ensures ParseLine(Line(m)) == Some(m)
    ensures '\n' !in m.content ==> '\n' !in Line(m)
  {
    var l := Line(m);
    match m.role
    case User =>
      assert l[..6] == "user: " && l[6..] == m.content;
    case Model =>
      assert l[..7] == "model: " && l[7..] == m.content;
      assert l[..6][0] == 'm';
  }

  /** Appending one line to a joined list adds one separator and that line. */
  lemma {:induction false} JoinAppend(ls: seq<string>, x: string, sep: string)
    ensures Join(ls + [x], sep) == if ls == [] then x else Join(ls, sep) + sep + x
  {
    if |ls| == 1 {
      assert ls + [x] == [ls[0], x];
    } else if |ls| > 1 {
      assert (ls + [x])[1..] == ls[1..] + [x];
      JoinAppend(ls[1..], x, sep);
    }
  }

  /** The transcript grows by one line per turn: the next request carries
      every earlier turn, in order, each prefixed with its role. */
  lemma TranscriptAppend(h: seq<Message>, m: Message)
    ensures TranscriptOf(h + [m]) == if h == [] then Line(m) else TranscriptOf(h) + "\n" + Line(m)
  {
    assert Lines(h + [m]) == Lines(h) + [Line(m)];
    JoinAppend(Lines(h), Line(m), "\n");
  }

  /** After a completed exchange (question q, answer a) the next transcript
      ends with both turns. */
  lemma TranscriptAfterExchange(h: seq<Message>, q: string, a: string)
    ensures TranscriptOf(h + [Message(User, q), Message(Model, a)]) ==
      (if h == [] then "" else TranscriptOf(h) + "\n") + ("user: " + q) + "\n" + ("model: " + a)
  {
    var u, m := Message(User, q), Message(Model, a);
    var pre := if h == [] then "" else TranscriptOf(h) + "\n";
    assert TranscriptOf(h + [u]) == pre + Line(u) by {
      TranscriptAppend(h, u);
    }
    assert TranscriptOf(h + [u, m]) == TranscriptOf(h + [u]) + "\n" + Line(m) by {
      assert h + [u, m] == (h + [u]) + [m];
      TranscriptAppend(h + [u], m);
    }
    assert Line(u) == "user: " + q;
    assert Line(m) == "model: " + a;
  }

  /** The transcript after a first exchange is exactly its two lines. */
  lemma FirstExchange(q: string, a: string)
    ensures TranscriptOf([Message(User, q), Message(Model, a)]) == ("user: " + q) + "\n" + ("model: " + a)
  {
    TranscriptAfterExchange([], q, a);
    assert [] + [Message(User, q), Message(Model, a)] == [Message(User, q), Message(Model, a)];
    assert "" + ("user: " + q) == "user: " + q;
  }

  /** Without the single-line condition the transcript is ambiguous: an
      answer whose content holds a newline followed by a role prefix reads
      the same as two separate turns. */
  lemma TranscriptAmbiguous(a: string, b: string)
    ensures [Message(Model, a + "\nuser: " + b)] != [Message(Model, a), Message(User, b)]
    ensures TranscriptOf([Message(Model, a + "\nuser: " + b)]) == TranscriptOf([Message(Model, a), Message(User, b)])
  {
    var m, u := Message(Model, a), Message(User, b);
    var joined := Message(Model, a + "\nuser: " + b);
    assert TranscriptOf([m, u]) == Line(m) + "\n" + Line(u) by {
      TranscriptAppend([m], u);
      assert [m] + [u] == [m, u];
    }
    assert TranscriptOf([joined]) == Line(joined) by {
      assert Lines([joined]) == [Line(joined)];
    }
    assert Line(m) + "\n" + Line(u) == Line(joined) by {
      assert "\nuser: " == "\n" + "user: ";
      Regroup("model: ", a, "\n", "user: ", b);
    }
  }

  lemma Regroup(p: string, a: string, n: string, q: string, b: string)
    ensures (p + a) + n + (q + b) == p + (a + (n + q) + b)
  {
  }

  /** Splitting at the first newline: a newline-free prefix sticks to the first piece. */
  lemma {:induction false} SplitPrefix(l: string, t: string)
    requires '\n' !in l
    ensures SplitLines(l + t) == [l + SplitLines(t)[0]] + SplitLines(t)[1..]
  {
    if l != [] {
      assert (l + t)[0] == l[0] && (l + t)[1..] == l[1..] + t;
      SplitPrefix(l[1..], t);
      assert [l[0]] + (l[1..] + SplitLines(t)[0]) == l + SplitLines(t)[0];
    } else {
      var r := SplitLines(t);
      assert l + t == t && l + r[0] == r[0];
      assert [r[0]] + r[1..] == r;
    }
  }

  /** Splitting undoes joining when no piece holds the separator. */
  lemma {:induction false} SplitJoin(ls: seq<string>)
    requires ls != []
    requires forall i :: 0 <= i < |ls| ==> '\n' !in ls[i]
    ensures SplitLines(Join(ls, "\n")) == ls
  {
    if |ls| == 1 {
      SplitPrefix(ls[0], "");
      assert ls[0] + "" == ls[0];
    } else {
      var rest := Join(ls[1..], "\n");
      SplitJoin(ls[1..]);
      assert ls[0] + "\n" + rest == ls[0] + ("\n" + rest);
      SplitPrefix(ls[0], "\n" + rest);
      assert ("\n" + rest)[0] == '\n' && ("\n" + rest)[1..] == rest;
      assert SplitLines("\n" + rest) == [""] + ls[1..];
      assert ls[0] + "" == ls[0];
    }
  }

  lemma {:induction false} ParseLinesOfLines(h: seq<Message>)
    ensures ParseLines(Lines(h)) == Some(h)
  {
    if h != [] {
      ParseLineOfLine(h[0]);
      assert Lines(h)[1..] == Lines(h[1..]);
      ParseLinesOfLines(h[1..]);
      assert [h[0]] + h[1..] == h;
    }
  }

  /** The transcript is a faithful encoding of the history it was built from:
      as long as no content spans several lines, reading it back gives the
      history exactly. */
  lemma TranscriptRoundTrip(h: seq<Message>)
    requires SingleLine(h)
    ensures ParseTranscript(TranscriptOf(h)) == Some(h)
  {
    if h != [] {
      var ls := Lines(h);
      forall i | 0 <= i < |ls| ensures '\n' !in ls[i] {
        ParseLineOfLine(h[i]);
      }
      SplitJoin(ls);
      ParseLinesOfLines(h);
    }
  }
}
