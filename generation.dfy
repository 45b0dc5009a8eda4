/**
  Generation client: the decision chain of `call_granite` around the loop
  that assembles the streamed answer from `data: ` lines.

  What the network and the JSON library do is given as inputs: the bearer
  token, the completion reply (status and the received lines), and `parse`,
  which stands for `json.loads` followed by `.get("choices", [{}])[0]
  .get("delta", {}).get("content")`.
 */
module Generation {
  import opened Wrappers
  import opened Text

  const TokenFailure: string := "Failed to get IAM token."
  const GraniteError: string := "Error calling Granite."
  const NoAnswer: string := "No answer generated."

  /** The marker a server-sent-events data line starts with, space included. */
  const DataPrefix: string := "data: "

  /**
    What `parse` makes of the text after the marker:
    Malformed: `json.loads` or the `.get` chain raises (not JSON, not an
      object), or `content` is a truthy value that is not a string (a
      non-zero number, `true`, a non-empty list or object), so that
      `answer += content_piece` raises;
    NoChoices: `choices` is present but empty, so `[0]` raises;
    Delta(content): Some(text) when `content` is a non-empty string, None
      when it is falsy: absent, null, "", 0, false, [] or {}, all of which
      `if content_piece` skips.
   */
  datatype Chunk = Malformed | NoChoices | Delta(content: Option<string>)

  /**
    One item of `response.iter_lines()`: a received line, already decoded,
    or a fault (a dropped connection, or a line that is not valid UTF-8).
   */
  datatype Received = Line(text: string) | Broken

  /** The completion call: `requests.post` raised, or a reply with its status and body lines. */
  datatype Reply = PostFailed | Reply(status: int, body: seq<Received>)

  /** `if not token`: the token passes unless it is one of Python's falsy values, None or "". */
  predicate TokenOk(token: Option<string>) {
    token.Some? && token.value != ""
  }

  /** A received line that begins with exactly `data: `. */
  predicate IsDataLine(item: Received) {
    item.Line? && StartsWith(item.text, DataPrefix)
  }

  /** An item that makes the loop raise. */
  predicate Faulty(item: Received, parse: string -> Chunk) {
    item.Broken? ||
    (IsDataLine(item) && parse(item.text[|DataPrefix|..]) in {Malformed, NoChoices})
  }

  /** The content fragment an item contributes to the buffer: none, or one non-empty string. */
  function Piece(item: Received, parse: string -> Chunk): (r: seq<string>)
    ensures |r| <= 1 && forall k :: 0 <= k < |r| ==> r[k] != ""
    ensures r != [] ==> IsDataLine(item) && parse(item.text[|DataPrefix|..]) == Delta(Some(r[0]))
  {
    if IsDataLine(item) then
      match parse(item.text[|DataPrefix|..])
      case Delta(Some(text)) => if text != "" then [text] else []
      case _ => []
    else []
  }

  // ---------------------------------------------------------------------
  // The loop, read as a fold
  // ---------------------------------------------------------------------

  /**
    One iteration on buffer `acc`: the new buffer, or None when the
    iteration raises.
   */
  function Step(acc: string, item: Received, parse: string -> Chunk): (r: Option<string>)
    ensures r.None? <==> Faulty(item, parse)
    ensures r.Some? ==> r.value == acc + Concat(Piece(item, parse))
  {
    match item
    case Broken => None
    case Line(text) =>
      if text == "" || !StartsWith(text, DataPrefix) then Some(acc)
      else
        match parse(text[|DataPrefix|..])
        case Malformed => None
        case NoChoices => None
        case Delta(content) =>
          if content.Some? && content.value != "" then Some(acc + content.value) else Some(acc)
  }

  /**
    The loop from buffer `acc` over `items`; None once any iteration raises.
    The buffer is only ever appended to: what it held at the start stays its prefix.
   */
  function Fold(acc: string, items: seq<Received>, parse: string -> Chunk): (r: Option<string>)
    ensures r.Some? ==> StartsWith(r.value, acc)
    decreases |items|
  {
    if items == [] then Some(acc)
    else
      match Step(acc, items[0], parse)
      case None => None
      case Some(next) =>
        var r := Fold(next, items[1..], parse);
        StartsWithConcat(acc, Concat(Piece(items[0], parse)));
        if r.Some? then StartsWithTrans(r.value, next, acc); r else r
  }

  /**
    `answer.strip() if answer else "No answer generated."`: the fallback only
    for an empty buffer; a buffer of whitespace only gives "".
   */
  function Finish(buffer: string): (r: string)
    ensures buffer == "" ==> r == NoAnswer
    ensures buffer != "" ==> (r == "" <==> AllSpace(buffer))
    ensures buffer != "" && r != "" ==> !IsSpace(r[0]) && !IsSpace(r[|r| - 1])
  {
    if buffer == "" then NoAnswer
    else
      var stripped := Strip(buffer);
      stripped
  }

  /**
    A non-empty buffer is finished as its own text with the surrounding
    whitespace removed: whatever whitespace pads a core that has none at its
    ends, the answer is that core.
   */
  lemma FinishPadded(front: string, core: string, back: string)
    requires front + core + back != ""
    requires AllSpace(front) && AllSpace(back)
    requires core == [] || (!IsSpace(core[0]) && !IsSpace(core[|core| - 1]))
    ensures Finish(front + core + back) == core
  {
    StripPadded(front, core, back);
  }

  /**
    `call_granite`, given what the token exchange and the completion call
    produced. A falsy token gives its sentinel whatever the reply; a failed
    POST or a status other than 200 gives the error sentinel whatever the
    body; otherwise a fault anywhere in the stream discards what was gathered,
    no fragments give the fallback, and else the answer is the stripped
    concatenation of the fragments.
   */
  function GraniteAnswer(token: Option<string>, reply: Reply, parse: string -> Chunk): (r: string)
    ensures !TokenOk(token) ==> r == TokenFailure
    ensures TokenOk(token) && (reply.PostFailed? || reply.status != 200) ==> r == GraniteError
    ensures TokenOk(token) && reply.Reply? && reply.status == 200 ==>
              r == if HasFault(reply.body, parse) then GraniteError
                   else if Fragments(reply.body, parse) == [] then NoAnswer
                   else Strip(Concat(Fragments(reply.body, parse)))
  {
    if !TokenOk(token) then TokenFailure
    else if reply.PostFailed? || reply.status != 200 then GraniteError
    else
      FoldMeaning("", reply.body, parse);
      ConcatEmpty(Fragments(reply.body, parse));
      assert "" + Concat(Fragments(reply.body, parse)) == Concat(Fragments(reply.body, parse));
      match Fold("", reply.body, parse)
      case None => GraniteError
      case Some(buffer) => Finish(buffer)
  }

  /** The body of `call_granite`: the checks, then the loop that appends fragments. */
  method CallGranite(token: Option<string>, reply: Reply, parse: string -> Chunk) returns (r: string)
    ensures r == GraniteAnswer(token, reply, parse)
  {
    if !TokenOk(token) {
      return TokenFailure;
    }
    if reply.PostFailed? || reply.status != 200 {
      return GraniteError;
    }
    var lines := reply.body;
    var answer := "";
    for i := 0 to |lines|
      invariant Fold("", lines, parse) == Fold(answer, lines[i..], parse)
    {
      assert lines[i..][1..] == lines[i + 1..];
      match lines[i]
      case Broken =>
        return GraniteError;
      case Line(text) =>
        if text != "" && StartsWith(text, DataPrefix) {
          var chunk := parse(text[|DataPrefix|..]);
          match chunk
          case Malformed =>
            return GraniteError;
          case NoChoices =>
            return GraniteError;
          case Delta(content) =>
            if content.Some? && content.value != "" {
              answer := answer + content.value;
            }
        }
    }
    assert lines[|lines|..] == [];
    r := Finish(answer);
  }

  // ---------------------------------------------------------------------
  // What the loop computes, stated independently of it
  // ---------------------------------------------------------------------

  /** Some item of the stream makes the loop raise. */
  ghost predicate HasFault(items: seq<Received>, parse: string -> Chunk) {
    exists i :: 0 <= i < |items| && Faulty(items[i], parse)
  }

  /** The non-empty content fragments of the data lines, in arrival order. */
  function Fragments(items: seq<Received>, parse: string -> Chunk): (r: seq<string>)
    ensures forall k :: 0 <= k < |r| ==> r[k] != ""
    decreases |items|
  {
    if items == [] then []
    else Piece(items[0], parse) + Fragments(items[1..], parse)
  }

  /** The strings of `parts` joined end to end. */
  function Concat(parts: seq<string>): string
    decreases |parts|
  {
    if parts == [] then "" else parts[0] + Concat(parts[1..])
  }

  /** Joining non-empty strings gives "" only when there are none. */
  lemma {:induction false} ConcatEmpty(parts: seq<string>)
    requires forall k :: 0 <= k < |parts| ==> parts[k] != ""
    ensures Concat(parts) == "" <==> parts == []
  {
    if parts != [] {
      assert |Concat(parts)| >= |parts[0]| > 0;
    }
  }

  /** Joining two lists of strings joins their joins. */
  lemma {:induction false} ConcatAppend(a: seq<string>, b: seq<string>)
    ensures Concat(a + b) == Concat(a) + Concat(b)
    decreases |a|
  {
    if a == [] {
      assert a + b == b;
    } else {
      assert (a + b)[0] == a[0] && (a + b)[1..] == a[1..] + b;
      ConcatAppend(a[1..], b);
    }
  }

  /** A stream has a faulty item exactly when its first item or the rest does. */
  lemma HasFaultCons(items: seq<Received>, parse: string -> Chunk)
    requires items != []
    ensures HasFault(items, parse) <==> Faulty(items[0], parse) || HasFault(items[1..], parse)
  {
    var rest := items[1..];
    if HasFault(rest, parse) {
      var i :| 0 <= i < |rest| && Faulty(rest[i], parse);
      assert items[i + 1] == rest[i];
    }
    if HasFault(items, parse) && !Faulty(items[0], parse) {
      var i :| 0 <= i < |items| && Faulty(items[i], parse);
      assert i != 0 && rest[i - 1] == items[i];
    }
  }

  /** An item that does not raise appends its fragment to the loop's buffer. */
  lemma FoldCons(acc: string, items: seq<Received>, parse: string -> Chunk)
    requires items != [] && !Faulty(items[0], parse)
    ensures Fold(acc, items, parse) == Fold(acc + Concat(Piece(items[0], parse)), items[1..], parse)
  {
    assert Step(acc, items[0], parse) == Some(acc + Concat(Piece(items[0], parse)));
  }

  /** The join of a stream's fragments is its first item's fragment, then the join of the rest. */
  lemma ConcatFragmentsCons(items: seq<Received>, parse: string -> Chunk)
    requires items != []
    ensures Concat(Fragments(items, parse)) ==
              Concat(Piece(items[0], parse)) + Concat(Fragments(items[1..], parse))
  {
    ConcatAppend(Piece(items[0], parse), Fragments(items[1..], parse));
  }

  /**
    The loop either raises, exactly when some item is faulty, or ends with
    the starting buffer followed by every fragment, in order.
   */
  lemma {:induction false} FoldMeaning(acc: string, items: seq<Received>, parse: string -> Chunk)
    ensures Fold(acc, items, parse) ==
              if HasFault(items, parse) then None
              else Some(acc + Concat(Fragments(items, parse)))
    decreases |items|
  {
    if items == [] {
      assert !HasFault(items, parse);
      assert acc + Concat([]) == acc;
    } else {
      HasFaultCons(items, parse);
      if Faulty(items[0], parse) {
        assert Step(acc, items[0], parse) == None;
      } else {
        var next := acc + Concat(Piece(items[0], parse));
        FoldCons(acc, items, parse);
        ConcatFragmentsCons(items, parse);
        assert acc + Concat(Fragments(items, parse)) == next + Concat(Fragments(items[1..], parse));
        FoldMeaning(next, items[1..], parse);
      }
    }
  }

  // ---------------------------------------------------------------------
  // Properties of call_granite
  // ---------------------------------------------------------------------

  /** A line with `data:` but no space after it is not a data line and is skipped. */
  lemma MarkerNeedsSpace(acc: string, rest: string, parse: string -> Chunk)
    requires rest == [] || rest[0] != ' '
    ensures Step(acc, Line("data:" + rest), parse) == Some(acc)
  {
    var text := "data:" + rest;
    if |text| >= |DataPrefix| {
      assert text[5] != DataPrefix[5];
    }
  }

  /** Blank lines and lines without the marker leave the buffer as it was. */
  lemma IgnoredLineKeepsBuffer(acc: string, text: string, parse: string -> Chunk)
    requires !IsDataLine(Line(text))
    ensures Step(acc, Line(text), parse) == Some(acc)
  {
  }

  /** A data line whose payload carries a non-empty fragment appends it to the buffer. */
  lemma DataLineAppends(acc: string, payload: string, piece: string, parse: string -> Chunk)
    requires parse(payload) == Delta(Some(piece)) && piece != ""
    ensures Step(acc, Line(DataPrefix + payload), parse) == Some(acc + piece)
  {
    StartsWithConcat(DataPrefix, payload);
    assert (DataPrefix + payload)[|DataPrefix|..] == payload;
  }

  /** Two content lines and a blank line give "Hello world". */
  lemma HelloWorld(token: Option<string>, first: string, second: string, parse: string -> Chunk)
    requires TokenOk(token)
    requires parse(first) == Delta(Some("Hello")) && parse(second) == Delta(Some(" world"))
    ensures GraniteAnswer(token, Reply(200, [Line(DataPrefix + first), Line(DataPrefix + second), Line("")]), parse)
            == "Hello world"
  {
    var hello, world, blank := Line(DataPrefix + first), Line(DataPrefix + second), Line("");
    DataLineAppends("", first, "Hello", parse);
    DataLineAppends("Hello", second, " world", parse);
    assert "" + "Hello" == "Hello";
    assert "Hello" + " world" == "Hello world";
    assert Fold("Hello world", [blank], parse) == Some("Hello world");
    assert [world, blank][1..] == [blank];
    assert Fold("Hello", [world, blank], parse) == Some("Hello world");
    assert [hello, world, blank][1..] == [world, blank];
    assert Fold("", [hello, world, blank], parse) == Some("Hello world");
    assert Strip("Hello world") == "Hello world" by {
      var text := "Hello world";
      assert text[0] == 'H' && text[|text| - 1] == 'd';
      StripPadded("", text, "");
      assert "" + text + "" == text;
    }
  }
}
