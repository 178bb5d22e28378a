/**
 * The POST handler of /api/generate-game: it validates the request body, builds the turn
 * list sent to the language model, and splits the model's reply into a description and
 * the HTML program of the game.  The model call is an input: the handler is given what
 * the call would return.
 */
module GenerateGame {
  import opened Wrappers
  import opened Text

  datatype Role = User | Assistant

  /** One turn of the conversation (the `Message` interface). */
  datatype Turn = Turn(role: Role, content: string)

  /** The `message` field of the JSON body: absent, a string, or any other JSON value. */
  datatype MessageField = Missing | Str(s: string) | NotString

  /** The `conversationHistory` field: absent (defaults to `[]`), a list of turns, or a
      value the handler cannot map: one without `map` (null, an object, a number ...) or
      a list holding a null or undefined entry, whose `msg.role` throws. */
  datatype HistoryField = Omitted | Turns(turns: seq<Turn>) | Unmappable

  datatype Request = Request(message: MessageField, conversationHistory: HistoryField)

  /** The first content block of the model's response. */
  datatype ContentBlock = TextBlock(text: string) | OtherBlock

  /** What the awaited model call does: returns its content blocks, or throws. */
  datatype ModelCall = Returned(content: seq<ContentBlock>) | Threw

  /** The handler's answer: 400 "Invalid message", 200 with the extraction, or 500. */
  datatype Response = InvalidMessage | Generated(message: string, gameCode: string) | Failure

  /** The turn list handed to the model (if the handler got that far) and the response. */
  datatype Exchange = Exchange(sent: Option<seq<Turn>>, response: Response)

  /** The reply split into description and game program. */
  datatype Extraction = Extraction(description: string, gameCode: string)

  const CodeOpen := "```html\n"
  const CodeClose := "\n```"
  /** The separator given to `split` for the description: the opening fence without its newline. */
  const DescriptionCut := "```html"
  const FallbackMessage := "Oyun oluşturuldu! Sağ tarafta görüntüleyebilirsiniz."

  // ---------------------------------------------------------------------------
  // Request shaping
  // ---------------------------------------------------------------------------

  /** `!message || typeof message !== 'string'` rejects; otherwise the message is used. */
  function CheckMessage(m: MessageField): (r: Option<string>)
    ensures r.None? <==> m.Missing? || m.NotString? || m == Str("")
    ensures r.Some? ==> m == Str(r.value) && r.value != ""
  {
    match m
    case Str(s) => if s == "" then None else Some(s)
    case _ => None
  }

  /** The history copied field by field, followed by the new user turn. */
  function UpstreamTurns(history: seq<Turn>, message: string): (r: seq<Turn>)
    ensures |r| == |history| + 1
    ensures r[..|history|] == history
    ensures r[|history|] == Turn(User, message)
  {
    seq(|history|, i requires 0 <= i < |history| => Turn(history[i].role, history[i].content))
      + [Turn(User, message)]
  }

  // ---------------------------------------------------------------------------
  // Reply extraction
  // ---------------------------------------------------------------------------

  /** A match of /```html\n([\s\S]*?)\n```/: opening fence at `open`, closing fence at
      `close`, the captured group between them. */
  datatype Block = Block(open: nat, close: nat)

  ghost predicate IsMatch(s: string, open: nat, close: nat) {
    OccursAt(s, open, CodeOpen) && open + |CodeOpen| <= close && OccursAt(s, close, CodeClose)
  }

  /** The match the regular expression finds: the first opening fence, then the first
      closing fence after it. */
  function FindBlock(s: string): (b: Option<Block>)
    ensures b.Some? ==> IsMatch(s, b.value.open, b.value.close)
  {
    match FindFrom(s, CodeOpen, 0)
    case None => None
    case Some(open) =>
      match FindFrom(s, CodeClose, open + |CodeOpen|)
      case None => None
      case Some(close) => Some(Block(open, close))
  }

  /** `FindBlock` agrees with the semantics of the regular expression: there is a match
      exactly when some opening fence is followed by a closing fence, and the one found
      starts leftmost and, lazily, ends at the first closing fence. */
  lemma FindBlockIsRegexMatch(s: string)
    ensures FindBlock(s).Some? <==> exists o: nat, c: nat :: IsMatch(s, o, c)
    ensures FindBlock(s).Some? ==>
      forall o: nat, c: nat :: IsMatch(s, o, c) ==>
        FindBlock(s).value.open <= o && (o == FindBlock(s).value.open ==> FindBlock(s).value.close <= c)
  {
    if o: nat, c: nat :| IsMatch(s, o, c) {
      var first := FindFrom(s, CodeOpen, 0);
      assert first.Some? && first.value <= o;
      var close := FindFrom(s, CodeClose, first.value + |CodeOpen|);
      assert !(close.None?) by {
        assert first.value + |CodeOpen| <= c && OccursAt(s, c, CodeClose);
      }
    }
    if FindBlock(s).Some? {
      var b := FindBlock(s).value;
      forall o: nat, c: nat | IsMatch(s, o, c)
        ensures b.open <= o && (o == b.open ==> b.close <= c)
      {
        assert FindFrom(s, CodeOpen, 0) == Some(b.open);
        assert FindFrom(s, CodeClose, b.open + |CodeOpen|) == Some(b.close);
      }
    }
  }

  /** `split(sep)[0]`: the text before the first occurrence of `sep`, or all of `s` when
      there is none. */
  function BeforeFirst(s: string, sep: string): (r: string)
    ensures |r| <= |s| && r == s[..|r|]
    ensures r == s || OccursAt(s, |r|, sep)
    ensures forall i: nat :: i < |r| ==> !OccursAt(s, i, sep)
  {
    match FindFrom(s, sep, 0)
    case None => s
    case Some(k) => s[..k]
  }

  lemma BeforeFirstAt(s: string, sep: string, k: nat)
    requires FindFrom(s, sep, 0) == Some(k)
    ensures BeforeFirst(s, sep) == s[..k]
  {
  }

  /** `gameCode`: the group captured by the match, or "" when there is none. */
  function GameCode(reply: string): (code: string)
    ensures FindBlock(reply).None? ==> code == ""
    ensures Absent(code, CodeClose)
  {
    match FindBlock(reply)
    case None => ""
    case Some(b) =>
      var code := reply[b.open + |CodeOpen|..b.close];
      assert Absent(code, CodeClose) by {
        forall i: nat ensures !OccursAt(code, i, CodeClose) {
          OccursInSlice(reply, b.open + |CodeOpen|, b.close, i, CodeClose);
        }
      }
      code
  }

  /** `description`: the whole reply when there is no match, otherwise the trimmed text
      before the first "```html". */
  function Description(reply: string): string {
    if FindBlock(reply).None? then reply else Trim(BeforeFirst(reply, DescriptionCut))
  }

  /** The game code and the description the handler derives from the model's reply. */
  function Extract(reply: string): (x: Extraction)
    ensures (forall o: nat, c: nat :: !IsMatch(reply, o, c)) ==> x == Extraction(reply, "")
    ensures Absent(x.gameCode, CodeClose)
  {
    FindBlockIsRegexMatch(reply);
    Extraction(Description(reply), GameCode(reply))
  }

  /** With a match, the game code is the text between the two fences. */
  lemma GameCodeBetweenFences(reply: string)
    requires FindBlock(reply).Some?
    ensures var b := FindBlock(reply).value;
      GameCode(reply) == reply[b.open + |CodeOpen|..b.close]
  {
  }

  /** With a match, the reply is the text before it, the fences around the game code, and
      the text after it; no opening fence starts before the one used. */
  lemma ExtractRoundTrip(reply: string)
    requires FindBlock(reply).Some?
    ensures var b := FindBlock(reply).value;
      reply == reply[..b.open] + CodeOpen + Extract(reply).gameCode + CodeClose
               + reply[b.close + |CodeClose|..]
    ensures forall i: nat :: i < FindBlock(reply).value.open ==> !OccursAt(reply, i, CodeOpen)
  {
    var b := FindBlock(reply).value;
    GameCodeBetweenFences(reply);
    Reassemble(reply, b.open, CodeOpen, b.close, CodeClose);
    assert FindFrom(reply, CodeOpen, 0) == Some(b.open);
  }

  /** Since the lazy group stops at the first closing fence, extracting again from the game
      code finds no block: the description is the code itself and the code is empty. */
  lemma ExtractAgainFindsNothing(reply: string)
    ensures var code := Extract(reply).gameCode;
      FindBlock(code).None? && Extract(code) == Extraction(code, "")
  {
    var code := Extract(reply).gameCode;
    match FindFrom(code, CodeOpen, 0)
    case None =>
    case Some(o) =>
      FindFromNone(code, CodeClose, o + |CodeOpen|);
  }

  /** With a match, the description is the trimmed text before the first "```html", which
      may stand before the opening fence (when it is not followed by a newline). */
  lemma DescriptionIsTrimmedPrefix(reply: string)
    requires FindBlock(reply).Some?
    ensures var k := FindFrom(reply, DescriptionCut, 0);
      && k.Some?
      && k.value <= FindBlock(reply).value.open
      && Extract(reply).description == Trim(reply[..k.value])
  {
    var b := FindBlock(reply).value;
    assert OccursAt(reply, b.open, DescriptionCut) by {
      assert reply[b.open..b.open + |DescriptionCut|] == reply[b.open..b.open + |CodeOpen|][..|DescriptionCut|];
    }
  }

  /** A reply with a stray "```html" (followed by a space) before the real code block. */
  function StrayTagReply(): string {
    "a" + DescriptionCut + " \n" + CodeOpen + "g" + CodeClose
  }

  lemma StrayTagBlock()
    ensures FindBlock(StrayTagReply()) == Some(Block(10, 19))
  {
    var reply := StrayTagReply();
    assert reply[10..18] == CodeOpen;
    assert reply[19..23] == CodeClose;
    forall k: nat | k < 10 ensures !OccursAt(reply, k, CodeOpen) {
      if k == 2 {
        MismatchAt(reply, k, CodeOpen, 2);
      } else {
        MismatchAt(reply, k, CodeOpen, 7);
      }
    }
    FindFromIs(reply, CodeOpen, 0, 10);
    MismatchAt(reply, 18, CodeClose, 0);
    FindFromIs(reply, CodeClose, 18, 19);
  }

  lemma StrayTagCut()
    ensures FindFrom(StrayTagReply(), DescriptionCut, 0) == Some(1)
  {
    var reply := StrayTagReply();
    assert reply[1..8] == DescriptionCut;
    MismatchAt(reply, 0, DescriptionCut, 0);
    FindFromIs(reply, DescriptionCut, 0, 1);
  }

  lemma StrayTagTrims()
    ensures Trim(StrayTagReply()[..10]) == "a```html" && Trim("a") == "a"
  {
    assert StrayTagReply()[..10] == "" + "a```html" + " \n";
    TrimOfFramed("", "a```html", " \n");
    TrimOfFramed("", "a", "");
    assert "" + "a" + "" == "a";
  }

  /** The two cut points differ: on this reply the description stops at the stray
      "```html", so it is "a" and not the trimmed text before the code block. */
  lemma CutPointsCanDiffer()
    ensures var b := FindBlock(StrayTagReply());
      && b == Some(Block(10, 19))
      && Extract(StrayTagReply()) == Extraction("a", "g")
      && Trim(StrayTagReply()[..b.value.open]) == "a```html"
  {
    StrayTagBlock();
    StrayTagExtract();
    StrayTagTrims();
  }

  lemma StrayTagExtract()
    ensures Extract(StrayTagReply()) == Extraction("a", "g")
  {
    StrayTagDescription();
    StrayTagCode();
  }

  lemma StrayTagDescription()
    ensures Description(StrayTagReply()) == "a"
  {
    var reply := StrayTagReply();
    StrayTagBlock();
    StrayTagCut();
    StrayTagTrims();
    BeforeFirstAt(reply, DescriptionCut, 1);
    assert reply[0] == 'a';
    FirstCharacter(reply);
  }

  lemma StrayTagCode()
    ensures GameCode(StrayTagReply()) == "g"
  {
    var reply := StrayTagReply();
    StrayTagBlock();
    GameCodeBetweenFences(reply);
    assert reply[18..19] == "g";
  }

  /** A reply assembled from a description without backquotes, a fenced code block whose
      code holds no closing fence, and any trailing text is taken apart into exactly that
      trimmed description and that code. */
  lemma ExtractComposed(pre: string, code: string, post: string)
    requires '`' !in pre
    requires Absent(code, CodeClose)
    ensures Extract(pre + CodeOpen + code + CodeClose + post) == Extraction(Trim(pre), code)
  {
    var s := pre + CodeOpen + code + CodeClose + post;
    var p := |pre|;
    var c := p + |CodeOpen| + |code|;
    SlicesOfFive(pre, CodeOpen, code, CodeClose, post);
    ComposedBlock(s, p, c);
    GameCodeBetweenFences(s);
  }

  /** An opening fence at `p` with no backquote before it, and a closing fence at `c` with
      none between the two: that is the block, and the description is cut at `p`. */
  lemma ComposedBlock(s: string, p: nat, c: nat)
    requires OccursAt(s, p, CodeOpen) && '`' !in s[..p]
    requires p + |CodeOpen| <= c && OccursAt(s, c, CodeClose)
    requires Absent(s[p + |CodeOpen|..c], CodeClose)
    ensures FindBlock(s) == Some(Block(p, c))
    ensures FindFrom(s, DescriptionCut, 0) == Some(p)
  {
    ComposedOpening(s, p);
    CloseFenceStartsOnce();
    FirstAfterFreeStretch(s, CodeClose, p + |CodeOpen|, c);
  }

  /** Before a prefix without backquotes no fence can start, so the first "```html\n" and
      the first "```html" are both where the prefix ends. */
  lemma ComposedOpening(s: string, p: nat)
    requires OccursAt(s, p, CodeOpen) && '`' !in s[..p]
    ensures FindFrom(s, CodeOpen, 0) == Some(p) && FindFrom(s, DescriptionCut, 0) == Some(p)
  {
    assert s[p..p + |DescriptionCut|] == s[p..p + |CodeOpen|][..|DescriptionCut|];
    forall k: nat | k < p ensures !OccursAt(s, k, CodeOpen) && !OccursAt(s, k, DescriptionCut) {
      assert s[k] == s[..p][k];
      MismatchAt(s, k, CodeOpen, 0);
      MismatchAt(s, k, DescriptionCut, 0);
    }
    FindFromIs(s, CodeOpen, 0, p);
    FindFromIs(s, DescriptionCut, 0, p);
  }

  /** The newline that starts the closing fence does not occur again inside it. */
  lemma CloseFenceStartsOnce()
    ensures forall d :: 0 < d < |CodeClose| ==> CodeClose[d] != CodeClose[0]
  {
  }

  // ---------------------------------------------------------------------------
  // Response
  // ---------------------------------------------------------------------------

  /** `response.content[0].type === 'text' ? response.content[0].text : ''`; reading the
      type of a missing first block throws. */
  function ReplyText(content: seq<ContentBlock>): (r: Option<string>)
    ensures r.None? <==> content == []
    ensures r.Some? && content[0].OtherBlock? ==> r.value == ""
    ensures r.Some? && content[0].TextBlock? ==> r.value == content[0].text
  {
    if content == [] then None
    else match content[0]
      case TextBlock(t) => Some(t)
      case OtherBlock => Some("")
  }

  /** The 200 response for a reply: the description, or the fixed fallback when it is
      empty, and the game code. */
  function Respond(reply: string): (r: Response)
    ensures r.Generated? && r.message != "" && r.gameCode == Extract(reply).gameCode
    ensures Extract(reply).description != "" ==> r.message == Extract(reply).description
    ensures Extract(reply).description == "" ==> r.message == FallbackMessage
  {
    var x := Extract(reply);
    Generated(if x.description != "" then x.description else FallbackMessage, x.gameCode)
  }

  /** `conversationHistory = []`: an omitted history is empty. */
  function HistoryOf(f: HistoryField): seq<Turn> {
    match f
    case Turns(turns) => turns
    case _ => []
  }

  /** The whole handler, given what the model call does. */
  function Post(req: Request, call: ModelCall): (x: Exchange)
    ensures x.response == InvalidMessage <==> CheckMessage(req.message).None?
    ensures x.sent.Some? <==> CheckMessage(req.message).Some? && !req.conversationHistory.Unmappable?
    ensures x.sent.Some? ==>
      var history := HistoryOf(req.conversationHistory);
      && |x.sent.value| == |history| + 1
      && x.sent.value[..|history|] == history
      && x.sent.value[|history|] == Turn(User, req.message.s)
    ensures x.response.Generated? <==> x.sent.Some? && call.Returned? && call.content != []
    ensures x.response.Generated? ==> x.response.message != ""
    ensures x.response.Generated? ==> x.response == Respond(ReplyText(call.content).value)
  {
    match CheckMessage(req.message)
    case None => Exchange(None, InvalidMessage)
    case Some(message) =>
      if req.conversationHistory.Unmappable? then Exchange(None, Failure)
      else
        var turns := UpstreamTurns(HistoryOf(req.conversationHistory), message);
        match call
        case Threw => Exchange(Some(turns), Failure)
        case Returned(content) =>
          match ReplyText(content)
          case None => Exchange(Some(turns), Failure)
          case Some(reply) => Exchange(Some(turns), Respond(reply))
  }

  /** The description an empty or non-text reply leads to is the fallback. */
  lemma EmptyReplyGetsFallback(content: seq<ContentBlock>)
    requires content != [] && (content[0].OtherBlock? || content[0].text == "")
    ensures ReplyText(content) == Some("")
    ensures Respond("") == Generated(FallbackMessage, "")
  {
    FindFromNone("", CodeOpen, 0);
  }

  /** A reply made of a description line without backquotes or surrounding white space, a
      newline and a fenced block is taken apart into that description and the block's code. */
  lemma ExtractAfterHead(head: string, code: string)
    requires '`' !in head
    requires head != [] && !IsWhitespace(head[0]) && !IsWhitespace(head[|head| - 1])
    requires Absent(code, CodeClose)
    ensures Extract(head + "\n" + CodeOpen + code + CodeClose) == Extraction(head, code)
  {
    var s := head + "\n" + CodeOpen + code + CodeClose;
    ExtractComposed(head + "\n", code, "");
    AppendEmpty(s);
    TrimLine(head);
  }

  lemma AppendEmpty(s: string)
    ensures s + "" == s
  {
  }

  /** A line without white space at its ends is what trimming it with its newline gives. */
  lemma TrimLine(line: string)
    requires line != [] && !IsWhitespace(line[0]) && !IsWhitespace(line[|line| - 1])
    ensures Trim(line + "\n") == line
  {
    TrimOfFramed("", line, "\n");
    assert "" + line + "\n" == line + "\n";
  }

  /** A reply in the format the system prompt asks for ("AÇIKLAMA: ...", a blank line,
      "KOD:", the fenced program) yields the description up to and including "KOD:"
      (the cut is at the fence, not before "KOD:") and exactly the program. */
  lemma PromptFormatExtraction(summary: string, code: string)
    requires '`' !in summary
    requires Absent(code, CodeClose)
    ensures Extract("AÇIKLAMA: " + summary + "\n\nKOD:\n" + CodeOpen + code + CodeClose)
         == Extraction("AÇIKLAMA: " + summary + "\n\nKOD:", code)
  {
    var head := "AÇIKLAMA: " + summary + "\n\nKOD:";
    assert head[0] == 'A' && head[|head| - 1] == ':';
    ExtractAfterHead(head, code);
    assert head + "\n" == "AÇIKLAMA: " + summary + "\n\nKOD:\n";
  }
}
