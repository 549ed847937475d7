/** What the `BotResponse` component renders (BotResponse.jsx, lines 89-93
    and 104-250), reduced to the choices it makes: the thinking indicator or
    the answer; rich-text or HTML body; whether the sources list and the
    feedback controls appear, and with what. Layout and styling are not part
    of this model. */
module BotView {
  import opened Optional
  import opened Citations
  import MessageText
  import Feedback

  /** `ALLOW_FEEDBACK` (src/utilities/constants.js, line 124). */
  const ALLOW_FEEDBACK: bool := true
  /** `ALLOW_MARKDOWN_BOT` (src/utilities/constants.js, line 135). */
  const ALLOW_MARKDOWN_BOT: bool := false

  /** The two feature flags the component reads. */
  datatype Config = Config(allowFeedback: bool, allowMarkdown: bool)

  const Shipped: Config := Config(ALLOW_FEEDBACK, ALLOW_MARKDOWN_BOT)

  /** The component's props; an id that is absent or null is the empty string,
      a message or citation list that is absent or null is `None`. `state`
      defaults to `"RECEIVED"`. */
  datatype Props = Props(message: Option<string>, citations: Option<seq<Citation>>,
                         messageId: string, conversationId: string, state: string)

  /** Rich text handed to the markdown renderer, or markup set as inner HTML. */
  datatype Body = Markdown(source: string) | Html(markup: string)

  /** The up and down controls: which one is highlighted, and whether both
      are disabled. */
  datatype Controls = Controls(upHighlighted: bool, downHighlighted: bool, disabled: bool)

  datatype View =
    | Thinking
    | Answer(body: Body, sources: Option<seq<Citation>>, controls: Option<Controls>)

  /** `isThinking` (line 90). */
  predicate IsThinking(state: string)
    ensures IsThinking(state) <==> state == "PROCESSING"
    ensures state == "RECEIVED" || state == "PENDING" ==> !IsThinking(state)
  {
    state == "PROCESSING"
  }

  /** `shouldShowFeedback` (line 93): the ids are deliberately not consulted. */
  predicate ShouldShowFeedback(config: Config, state: string)
    ensures ShouldShowFeedback(config, state) ==> config.allowFeedback
    ensures ShouldShowFeedback(config, state) <==> config.allowFeedback && state != "PROCESSING"
  {
    config.allowFeedback && !IsThinking(state)
  }

  /** The render of one bot answer with the given feedback state. */
  function Render(config: Config, props: Props, feedback: Feedback.State): (v: View)
    // the thinking view is chosen exactly for a message still in progress
    ensures v.Thinking? <==> props.state == "PROCESSING"
    // exactly one text policy, chosen by the markdown flag
    ensures v.Answer? ==> (v.body.Markdown? <==> config.allowMarkdown)
    ensures v.Answer? && v.body.Markdown? ==> v.body.source == MessageText.SafeMessage(props.message)
    ensures v.Answer? && v.body.Html? ==> v.body.markup == MessageText.FormattedMessage(props.message)
    // the sources list appears only when some citation survives, one per title
    ensures v.Answer? ==>
              (v.sources.Some? <==> UniqueCitations(props.citations) != [])
    ensures v.Answer? && v.sources.Some? ==>
              DistinctTitles(v.sources.value) && v.sources.value == UniqueCitations(props.citations)
    // the feedback controls follow the flag alone, whatever the ids
    ensures v.Answer? ==> (v.controls.Some? <==> config.allowFeedback)
    ensures v.Answer? && v.controls.Some? ==>
              v.controls.value.disabled == feedback.isSubmitting &&
              (v.controls.value.upHighlighted <==> feedback.feedback == Feedback.Upvoted) &&
              (v.controls.value.downHighlighted <==> feedback.feedback == Feedback.Downvoted)
  {
    if IsThinking(props.state) then Thinking
    else
      var body := if config.allowMarkdown then Markdown(MessageText.SafeMessage(props.message))
                  else Html(MessageText.FormattedMessage(props.message));
      var unique := UniqueCitations(props.citations);
      var sources := if |unique| > 0 then Some(unique) else None;
      var controls :=
        if ShouldShowFeedback(config, props.state) then
          Some(Controls(feedback.feedback == Feedback.Upvoted,
                        feedback.feedback == Feedback.Downvoted,
                        feedback.isSubmitting))
        else None;
      Answer(body, sources, controls)
  }

  /** While a message is in progress neither citations nor feedback controls
      are rendered, whatever the flags and the citations. */
  lemma ProcessingShowsNothingElse(config: Config, props: Props, feedback: Feedback.State)
    requires props.state == "PROCESSING"
    ensures Render(config, props, feedback) == Thinking
    ensures !ShouldShowFeedback(config, props.state)
  {
  }

  /** Whether the feedback controls appear does not depend on the ids: a
      message without ids looks the same as one with them. */
  lemma FeedbackVisibilityIgnoresIds(config: Config, props: Props, feedback: Feedback.State,
                                     messageId: string, conversationId: string)
    ensures Render(config, props.(messageId := messageId, conversationId := conversationId), feedback)
         == Render(config, props, feedback)
  {
  }

  /** With the flags as shipped, a delivered answer is shown as HTML with the
      line feeds turned into `<br>`, and always offers feedback controls. */
  lemma ShippedConfiguration(props: Props, feedback: Feedback.State)
    requires props.state != "PROCESSING"
    ensures Render(Shipped, props, feedback).Answer?
    ensures Render(Shipped, props, feedback).body == Html(MessageText.FormattedMessage(props.message))
    ensures Render(Shipped, props, feedback).controls.Some?
  {
  }
}
