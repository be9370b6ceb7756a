/** The command layer of the current revision: which answer a chat message
    gets, which URL a download request uses, how texts are escaped for
    Telegram's MarkdownV2, and how a worker result becomes a reply.

    A message is reduced to the facts the code inspects. The current
    revision's URL finder (`utils::get_url_info` returning `URLsFound`) is
    not part of this model; it is a function given to the members that use it. */
module Commands {
  import opened Base
  import opened Text
  import opened Tasks

  datatype Command = Help | Status | Yeet(text: string) | YeetPlz(text: string) | Allowlist

  /** `MessageKind::Common` (ordinary messages) against everything else
      (pins, polls, service messages). */
  datatype MessageKind = Common | NotCommon

  /** The facts about a message that answering it looks at: its kind, whether
      the chat is private, whether it was forwarded, and the text of the
      message it replies to, if any. */
  datatype Message = Message(kind: MessageKind, isPrivate: bool, forwarded: bool, replyText: Option<string>)

  /** `URLsFound`: what the URL finder reports about one text. */
  datatype UrlsFound = NoUrls | Multiple | One(url: string, supported: bool)

  /** The bitrate warning attached to a reduced video: the original and the
      reduced bitrate in kbps. */
  datatype Caption = BitrateWarning(originalKbps: nat, reducedKbps: nat)

  datatype Answer =
    | Nothing
    | SendMessage(text: string)
    | StartDownload(acceptMessage: string, url: string, enableFallback: bool)
    | SendVideo(contents: TaskOutput, maybeCaption: Option<Caption>)

  /** Configuration the answers quote: `ALLOWLIST` listed in the set's
      iteration order (any order, each entry once), `MAINTAINER`, and the
      generated command descriptions. */
  datatype Settings = Settings(allowlist: seq<string>, maintainer: Option<string>, helpText: string)

  /** The per-character specification of the escaping: a backslash before each
      of `.`, `(`, `)`, `-` and `_`, every other character as it is. */
  function EscapeEach(s: string): string {
    if s == [] then []
    else (if s[0] in ".()-_" then ['\\', s[0]] else [s[0]]) + EscapeEach(s[1..])
  }

  /** The `sanitise` closure: five `replace` passes, one per special character. */
  function Sanitise(text: string): string {
    Replace(Replace(Replace(Replace(Replace(text, '.', "\\."), '(', "\\("), ')', "\\)"), '-', "\\-"), '_', "\\_")
  }

  lemma SanitiseAppend(a: string, b: string)
    ensures Sanitise(a + b) == Sanitise(a) + Sanitise(b)
  {
    var r1a, r1b := Replace(a, '.', "\\."), Replace(b, '.', "\\.");
    ReplaceAppend(a, b, '.', "\\.");
    var r2a, r2b := Replace(r1a, '(', "\\("), Replace(r1b, '(', "\\(");
    ReplaceAppend(r1a, r1b, '(', "\\(");
    var r3a, r3b := Replace(r2a, ')', "\\)"), Replace(r2b, ')', "\\)");
    ReplaceAppend(r2a, r2b, ')', "\\)");
    var r4a, r4b := Replace(r3a, '-', "\\-"), Replace(r3b, '-', "\\-");
    ReplaceAppend(r3a, r3b, '-', "\\-");
    ReplaceAppend(r4a, r4b, '_', "\\_");
  }

  lemma SanitiseChar(x: char)
    ensures Sanitise([x]) == EscapeEach([x])
  {
    var s := [x];
    assert s[1..] == [];
    if x in ".()-_" {
      // The first pass that meets x turns it into a backslash and x; no
      // later pass touches either character.
      var e := ['\\', x];
      var r1 := Replace(s, '.', "\\.");
      if x == '.' { ReplaceHit(x, "\\."); } else { ReplaceAbsent(s, '.', "\\."); }
      var r2 := Replace(r1, '(', "\\(");
      if x == '(' { ReplaceHit(x, "\\("); } else { ReplaceAbsent(r1, '(', "\\("); }
      var r3 := Replace(r2, ')', "\\)");
      if x == ')' { ReplaceHit(x, "\\)"); } else { ReplaceAbsent(r2, ')', "\\)"); }
      var r4 := Replace(r3, '-', "\\-");
      if x == '-' { ReplaceHit(x, "\\-"); } else { ReplaceAbsent(r3, '-', "\\-"); }
      if x == '_' { ReplaceHit(x, "\\_"); } else { ReplaceAbsent(r4, '_', "\\_"); }
      assert EscapeEach(s) == e + EscapeEach([]);
    } else {
      ReplaceAbsent(s, '.', "\\.");
      ReplaceAbsent(s, '(', "\\(");
      ReplaceAbsent(s, ')', "\\)");
      ReplaceAbsent(s, '-', "\\-");
      ReplaceAbsent(s, '_', "\\_");
      assert EscapeEach(s) == s + EscapeEach([]);
    }
  }

  /** The five replace passes escape exactly the special characters, each once,
      and leave everything else untouched. */
  lemma {:induction false} SanitiseEscapesEach(s: string)
    ensures Sanitise(s) == EscapeEach(s)
  {
    if s == [] {
      assert Sanitise(s) == [] by {
        assert Replace([], '.', "\\.") == [];
      }
    } else {
      assert s == [s[0]] + s[1..];
      SanitiseAppend([s[0]], s[1..]);
      SanitiseChar(s[0]);
      SanitiseEscapesEach(s[1..]);
    }
  }

  const CONTACT_PREFIX := "\n\nFor more information, please contact "

  /** An error message, followed by a request to contact the maintainer when
      one is configured. */
  function WithContact(error: string, maintainer: Option<string>): (text: string)
    ensures error <= text
    ensures text == error <==> maintainer.None?
    ensures maintainer.Some? ==> text[|error|..] == CONTACT_PREFIX + maintainer.value + "."
  {
    if maintainer.None? then error else error + CONTACT_PREFIX + maintainer.value + "."
  }

  const EMPTY_QUEUE_TEXT := "Request accepted.\nThe queue is empty, downloading now."
  const POSITION_PREFIX := "Request accepted.\nYour position in the queue: "

  /** The acceptance text: "queue is empty" for position 0, the position otherwise. */
  function AcceptMessage(position: nat): (text: string)
    ensures text == EMPTY_QUEUE_TEXT <==> position == 0
    ensures position > 0 ==> text == POSITION_PREFIX + Decimal(position) + "."
  {
    if position == 0 then EMPTY_QUEUE_TEXT
    else
      var text := POSITION_PREFIX + Decimal(position) + ".";
      assert text[18] != EMPTY_QUEUE_TEXT[18];
      text
  }

  /** `extract_urls`: the message's own URL when it has exactly one; otherwise
      the URL of the message it replies to, if that has exactly one; otherwise
      what the message itself gave. */
  function ExtractUrls(msg: Message, text: string, urlInfo: string -> UrlsFound): (found: UrlsFound)
    ensures urlInfo(text).One? ==> found == urlInfo(text)
    ensures !found.One? ==> found == urlInfo(text)
    ensures !urlInfo(text).One? && msg.kind == Common && msg.replyText.Some? && urlInfo(msg.replyText.value).One? ==>
      found == urlInfo(msg.replyText.value)
    ensures found.One? <==>
      urlInfo(text).One? || (msg.kind == Common && msg.replyText.Some? && urlInfo(msg.replyText.value).One?)
  {
    var original := urlInfo(text);
    if original.One? then original
    else if msg.kind != Common then original
    else if msg.replyText.None? then original
    else
      var replied := urlInfo(msg.replyText.value);
      if replied.One? then replied else original
  }

  function UnsupportedText(sites: seq<string>): string {
    "URL is unsupported.\n\nSupported websites: " + (if sites == [] then "none" else CodeList(sites)) + "."
  }

  /** Whether a message is ignored whatever it says: not an ordinary message,
      or forwarded into a chat that is not private. */
  predicate Ignored(msg: Message) {
    msg.kind != Common || (!msg.isPrivate && msg.forwarded)
  }

  /** The download branch of `answer_entrypoint`. */
  function DownloadRequest(msg: Message, text: string, fallbackEnabled: bool, queueSize: nat,
                           settings: Settings, urlInfo: string -> UrlsFound): Answer
  {
    match ExtractUrls(msg, text, urlInfo)
    case NoUrls => SendMessage(WithContact("No URLs found.", settings.maintainer))
    case Multiple =>
      SendMessage(WithContact("Downloading more than one video at a time is unsupported.", settings.maintainer))
    case One(url, supported) =>
      if supported || fallbackEnabled then StartDownload(AcceptMessage(queueSize), url, fallbackEnabled)
      else SendMessage(WithContact(UnsupportedText(settings.allowlist), settings.maintainer))
  }

  /** `answer_entrypoint`. `queueSize` is what `get_queue_size` returns when
      the answer is computed. */
  function AnswerEntrypoint(msg: Message, cmd: Command, queueSize: nat, settings: Settings,
                            urlInfo: string -> UrlsFound): (answer: Answer)
    ensures Ignored(msg) ==> answer == Nothing
    ensures answer.StartDownload? ==> (cmd.Yeet? || cmd.YeetPlz?) && (answer.enableFallback <==> cmd.YeetPlz?)
  {
    if Ignored(msg) then Nothing
    else match cmd
      case Help => SendMessage(settings.helpText)
      case Status => SendMessage("Number of active tasks: " + Decimal(queueSize) + ".")
      case Allowlist =>
        SendMessage("Supported websites:" + (if settings.allowlist == [] then " none" else "\n" + CodeList(settings.allowlist)) + ".")
      case Yeet(text) => DownloadRequest(msg, text, false, queueSize, settings, urlInfo)
      case YeetPlz(text) => DownloadRequest(msg, text, true, queueSize, settings, urlInfo)
  }

  /** Help, status and allowlist always get a text reply; status reports the
      queue size and an empty allowlist reads " none". */
  lemma InformationCommands(msg: Message, queueSize: nat, settings: Settings, urlInfo: string -> UrlsFound)
    requires !Ignored(msg)
    ensures AnswerEntrypoint(msg, Help, queueSize, settings, urlInfo) == SendMessage(settings.helpText)
    ensures AnswerEntrypoint(msg, Status, queueSize, settings, urlInfo)
      == SendMessage("Number of active tasks: " + Decimal(queueSize) + ".")
    ensures AnswerEntrypoint(msg, Allowlist, queueSize, settings, urlInfo).SendMessage?
    ensures settings.allowlist == [] ==>
      AnswerEntrypoint(msg, Allowlist, queueSize, settings, urlInfo) == SendMessage("Supported websites: none.")
  {
  }

  /** The download commands: no URL and several URLs are refused with their
      own texts; a single unsupported URL is refused only for `yeet`; any other
      single URL starts a download whose acceptance text reflects the queue. */
  lemma DownloadCommands(msg: Message, text: string, plz: bool, queueSize: nat, settings: Settings,
                         urlInfo: string -> UrlsFound)
    requires !Ignored(msg)
    ensures var cmd := if plz then YeetPlz(text) else Yeet(text);
      var answer := AnswerEntrypoint(msg, cmd, queueSize, settings, urlInfo);
      var found := ExtractUrls(msg, text, urlInfo);
      (found.NoUrls? ==> answer == SendMessage(WithContact("No URLs found.", settings.maintainer))) &&
      (found.Multiple? ==> answer == SendMessage(WithContact("Downloading more than one video at a time is unsupported.", settings.maintainer))) &&
      (found.One? && !found.supported && !plz ==>
        answer == SendMessage(WithContact(UnsupportedText(settings.allowlist), settings.maintainer))) &&
      (found.One? && (found.supported || plz) ==>
        answer == StartDownload(AcceptMessage(queueSize), found.url, plz))
  {
  }

  /** The outcome of `download` once the worker's result arrives (or the
      channel closes): a video to send, or an error. */
  datatype DownloadOutcome = Reply(answer: Answer) | Bail(error: string)

  /** `download` after the enqueue: a closed channel and a failed task become
      errors; a finished task becomes a video, captioned exactly when its
      bitrate was reduced. */
  function DownloadAnswer(received: Option<TaskResult>): (outcome: DownloadOutcome)
    ensures received.None? ==> outcome == Bail("internal error: channel closed")
    ensures received.Some? && received.value.Err? ==> outcome == Bail("processing error: " + received.value.reason)
    ensures received.Some? && received.value.Ok? ==>
      outcome.Reply? && outcome.answer.SendVideo? && outcome.answer.contents == received.value.output
      && (outcome.answer.maybeCaption.Some? <==> received.value.output.reducedBitrate.Some?)
  {
    match received
    case None => Bail("internal error: channel closed")
    case Some(Err(e)) => Bail("processing error: " + e)
    case Some(Ok(contents)) =>
      var caption := match contents.reducedBitrate
        case None => None
        case Some(r) => Some(BitrateWarning(contents.metadata.bitrate, r));
      Reply(SendVideo(contents, caption))
  }

  /** The text `handle_answer` sends when `download` fails. */
  function DownloadFailureText(error: string): string {
    "Failed to download video (" + error + ")."
  }

  /** A task the worker fails reaches the user as a download failure that
      quotes the worker's reason. */
  lemma WorkerFailureReachesUser(reason: string)
    ensures DownloadAnswer(Some(Err(reason))).Bail?
    ensures DownloadFailureText(DownloadAnswer(Some(Err(reason))).error)
      == "Failed to download video (processing error: " + reason + ")."
  {
  }
}
