/** The chat page: its input box, the handlers that hand text to the chat
    hook's `sendMessage`, and the view it derives from the hook's messages
    and status. The hook itself (what `sendMessage` does to the messages and
    the status) is outside this module: status and messages are inputs. */
module ChatPage {
  import opened Text
  import opened Message
  import opened ChatStatus

  /** The suggestions shown on the welcome screen. */
  const StarterPrompts: seq<string> := [
    "What services does Odd Shoes offer?",
    "I need a website built from scratch",
    "Tell me about AI & Automation",
    "How do I get started with a project?"
  ]

  /** The input box's contents, the status last read from the chat hook, and
      every text handed to `sendMessage` so far, oldest first. */
  datatype State = State(input: string, status: Status, outbox: seq<string>)

  /** A text fit to send: non-empty, with no whitespace at either end. */
  predicate Sendable(m: string) {
    m != [] && Trimmed(m)
  }

  predicate AllSendable(ms: seq<string>) {
    forall i :: 0 <= i < |ms| ==> Sendable(ms[i])
  }

  /** `handleSubmit`: a whitespace-only input, or a request in flight, leaves
      everything as it was; otherwise the box is cleared and the input,
      stripped of the whitespace around it, is sent exactly once. */
  function HandleSubmit(st: State): (r: State)
    ensures r.status == st.status
    ensures AllWhitespace(st.input) || IsLoading(st.status) ==> r == st
    ensures !AllWhitespace(st.input) && !IsLoading(st.status) ==>
              && r.input == []
              && |r.outbox| == |st.outbox| + 1
              && r.outbox[..|st.outbox|] == st.outbox
              && Sendable(r.outbox[|st.outbox|])
              && StripsTo(st.input, r.outbox[|st.outbox|])
  {
    var trimmed := Trim(st.input);
    if trimmed == [] || IsLoading(st.status) then st
    else
      var r := State([], st.status, st.outbox + [trimmed]);
      assert r.outbox[..|st.outbox|] == st.outbox;
      r
  }

  /** The send button's `disabled` attribute, negated: it is enabled exactly
      when pressing it would send something. */
  function SendEnabled(st: State): (b: bool)
    ensures b <==> HandleSubmit(st) != st
    ensures b <==> |HandleSubmit(st).outbox| == |st.outbox| + 1
  {
    !(IsLoading(st.status) || Trim(st.input) == [])
  }

  /** `handleStarterPrompt`: only the in-flight check; the prompt goes out
      verbatim and the input box is left alone. */
  function HandleStarterPrompt(st: State, prompt: string): (r: State)
    ensures r.input == st.input && r.status == st.status
    ensures IsLoading(st.status) ==> r.outbox == st.outbox
    ensures !IsLoading(st.status) ==> r.outbox == st.outbox + [prompt]
  {
    if IsLoading(st.status) then st else st.(outbox := st.outbox + [prompt])
  }

  /** The input's `onChange`. The input is `disabled` while a request is in
      flight, so keystrokes are then ignored. Typing never sends anything. */
  function EditInput(st: State, value: string): (r: State)
    ensures r.status == st.status && r.outbox == st.outbox
    ensures IsLoading(st.status) ==> r == st
    ensures !IsLoading(st.status) ==> r == st.(input := value)
  {
    if IsLoading(st.status) then st else st.(input := value)
  }

  /** What the user can do on the page. `ClickStarter(k)` presses the k-th
      welcome button; there is no button beyond the last prompt. */
  datatype Event = Type(value: string) | Submit | ClickStarter(index: nat)

  function Step(st: State, e: Event): (r: State)
    ensures r.status == st.status
    ensures |st.outbox| <= |r.outbox| <= |st.outbox| + 1
    ensures r.outbox[..|st.outbox|] == st.outbox
  {
    match e
    case Type(v) => EditInput(st, v)
    case Submit => HandleSubmit(st)
    case ClickStarter(k) =>
      if k < |StarterPrompts| then HandleStarterPrompt(st, StarterPrompts[k]) else st
  }

  /** The page after a sequence of events, with the hook's status held fixed. */
  function Run(st: State, es: seq<Event>): (r: State)
    ensures r.status == st.status
    ensures |st.outbox| <= |r.outbox| <= |st.outbox| + |es|
    ensures r.outbox[..|st.outbox|] == st.outbox
    decreases |es|
  {
    if es == [] then st
    else
      var mid := Step(st, es[0]);
      var r := Run(mid, es[1..]);
      assert r.outbox[..|st.outbox|] == r.outbox[..|mid.outbox|][..|st.outbox|];
      r
  }

  /** While a request is in flight no event changes anything: the page never
      starts a second request, and never supersedes the first. */
  lemma {:induction false} LoadingRejectsEverything(st: State, es: seq<Event>)
    requires IsLoading(st.status)
    ensures Run(st, es) == st
    decreases |es|
  {
    if es != [] {
      LoadingRejectsEverything(Step(st, es[0]), es[1..]);
    }
  }

  /** None of the welcome prompts has whitespace at either end. */
  lemma StarterPromptsSendable()
    ensures AllSendable(StarterPrompts)
  {
    forall i | 0 <= i < |StarterPrompts| ensures Sendable(StarterPrompts[i]) {
      var p := StarterPrompts[i];
      VisibleAsciiNotWhitespace(p[0]);
      VisibleAsciiNotWhitespace(p[|p| - 1]);
    }
  }

  /** Every text the page sends is non-empty and has no surrounding
      whitespace, however the user types, submits and clicks. */
  lemma {:induction false} RunSendsOnlySendable(st: State, es: seq<Event>)
    requires AllSendable(st.outbox)
    ensures AllSendable(Run(st, es).outbox)
    decreases |es|
  {
    if es != [] {
      var mid := Step(st, es[0]);
      assert AllSendable(mid.outbox) by {
        StarterPromptsSendable();
        assert mid.outbox == st.outbox || |mid.outbox| == |st.outbox| + 1;
        if |mid.outbox| == |st.outbox| + 1 {
          assert mid.outbox == st.outbox + [mid.outbox[|st.outbox|]];
        }
      }
      RunSendsOnlySendable(mid, es[1..]);
    }
  }

  /** Clicking a welcome prompt sends what typing it and pressing send
      would; the difference is only that the input box is kept. */
  lemma StarterPromptLikeSubmit(st: State, k: nat)
    requires k < |StarterPrompts|
    ensures Step(st, ClickStarter(k)).outbox == HandleSubmit(st.(input := StarterPrompts[k])).outbox
  {
    var p := StarterPrompts[k];
    StarterPromptsSendable();
    assert Sendable(p);
    TrimOfTrimmed(p);
  }

  /** For any other text the two handlers differ: a starter prompt is not
      trimmed. */
  lemma StarterPromptNotTrimmed()
    ensures HandleStarterPrompt(State([], Ready, []), " hi ").outbox == [" hi "]
    ensures HandleSubmit(State(" hi ", Ready, [])).outbox == ["hi"]
  {
    HiLiteral();
    SpaceIsWhitespace();
    VisibleAsciiNotWhitespace('h');
    VisibleAsciiNotWhitespace('i');
    TrimUnique([' '], "hi", [' ']);
  }

  lemma HiLiteral()
    ensures " hi " == [' '] + "hi" + [' ']
  {
    var s := [' '] + "hi" + [' '];
    assert forall i :: 0 <= i < 4 ==> s[i] == " hi "[i];
  }

  /** One message bubble: whose side it sits on and the text it shows. User
      text is shown plainly; every other role's text goes through Markdown. */
  datatype Bubble = Bubble(fromUser: bool, text: string)

  /** The messages area: the welcome screen with its prompts, or the list of
      bubbles with or without the typing indicator after them. */
  datatype View = Welcome(prompts: seq<string>) | Thread(bubbles: seq<Bubble>, typing: bool)

  /** `messages[messages.length - 1]?.role`: absent for an empty list,
      otherwise the newest message's role. */
  function LastRole(ms: seq<Msg>): (r: Option<Role>)
    ensures r == None <==> ms == []
    ensures r.Some? ==> r.value == ms[|ms| - 1].role
  {
    if ms == [] then None else Some(ms[|ms| - 1].role)
  }

  /** The bubble for one message: user-side exactly for user messages,
      showing the message's display text. */
  function BubbleOf(m: Msg): (b: Bubble)
    ensures b.fromUser <==> m.role == User
    ensures b.text == RenderedText(m.parts)
  {
    GetMessageTextIsRenderedText(m.parts);
    Bubble(m.role == User, GetMessageText(m.parts))
  }

  function Render(ms: seq<Msg>, status: Status): (v: View)
    ensures v.Welcome? <==> ms == []
    ensures v.Welcome? ==> v.prompts == StarterPrompts
    ensures v.Thread? ==>
              && |v.bubbles| == |ms|
              && forall i :: 0 <= i < |ms| ==>
                   v.bubbles[i] == Bubble(ms[i].role == User, RenderedText(ms[i].parts))
  {
    if |ms| == 0 then Welcome(StarterPrompts)
    else
      var bubbles := seq(|ms|, i requires 0 <= i < |ms| => BubbleOf(ms[i]));
      Thread(bubbles, IsLoading(status) && LastRole(ms) != Some(Assistant))
  }

  /** The typing indicator is on screen exactly when there are messages, a
      request is in flight, and the assistant has not started its reply. */
  function TypingIndicatorShown(ms: seq<Msg>, status: Status): (b: bool)
    ensures b <==> ms != [] && IsLoading(status) && ms[|ms| - 1].role != Assistant
  {
    var v := Render(ms, status);
    v.Thread? && v.typing
  }
}
