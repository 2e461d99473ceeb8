/** The error handling of `get_protein_targets` (app.py:10-30): the model's
    reply is stripped and parsed as JSON, and any exception on the way is
    reported once and turned into an empty list of targets. */
module Discovery {
  import opened Wrappers
  import opened PyStr
  import opened TargetNames

  /** What discovery hands back: the targets, and the messages passed to the
      error surface (`st.error`) on the way. */
  datatype Discovered = Discovered(targets: seq<TargetEntry>, reports: seq<string>)

  /** `get_protein_targets`. `chat` is what the chat-completion request
      produced (the reply's text, or the exception it raised); `parse` is
      `json.loads` applied to a text, restricted to replies that are arrays of
      targets. Neither is part of this model. */
  function GetProteinTargets(chat: Attempt<string>, parse: string -> Attempt<seq<TargetEntry>>): (d: Discovered)
    ensures |d.reports| <= 1
    ensures d.reports == [] <==> chat.Returned? && parse(Strip(chat.value, IsSpace)).Returned?
    ensures d.reports == [] ==> d.targets == parse(Strip(chat.value, IsSpace)).value
    ensures d.reports != [] ==> d.targets == []
    ensures chat.Raised? ==> d.reports == [ErrorText(chat.msg)]
    ensures chat.Returned? && parse(Strip(chat.value, IsSpace)).Raised? ==>
      d.reports == [ErrorText(parse(Strip(chat.value, IsSpace)).msg)]
  {
    match chat
    case Raised(msg) => Discovered([], [ErrorText(msg)])
    case Returned(content) =>
      match parse(Strip(content, IsSpace))
      case Raised(msg) => Discovered([], [ErrorText(msg)])
      case Returned(targets) => Discovered(targets, [])
  }

  /** An empty list of targets does not tell the caller whether the model
      named none or the request failed: both give `[]`, and only the error
      surface saw the difference. */
  lemma EmptyTargetsAmbiguous(chat: Attempt<string>, parse: string -> Attempt<seq<TargetEntry>>)
    ensures GetProteinTargets(chat, parse).targets == [] <==>
      || chat.Raised?
      || parse(Strip(chat.value, IsSpace)).Raised?
      || parse(Strip(chat.value, IsSpace)).value == []
  {
  }

  /** The reply is parsed after surrounding whitespace is stripped: replies
      that differ only in it give the same targets. */
  lemma DiscoveryIgnoresSurroundingSpace(content: string, lead: string, trail: string,
                                         parse: string -> Attempt<seq<TargetEntry>>)
    requires content != [] && !IsSpace(content[0]) && !IsSpace(content[|content| - 1])
    requires forall i :: 0 <= i < |lead| ==> IsSpace(lead[i])
    requires forall i :: 0 <= i < |trail| ==> IsSpace(trail[i])
    ensures GetProteinTargets(Returned(lead + content + trail), parse)
         == GetProteinTargets(Returned(content), parse)
  {
    StripKeeps(content, IsSpace);
    StripAround(lead, content, trail, IsSpace);
  }
}
