/** `POST /moderation/check`: validates the request body, asks the
    moderation service for a verdict and maps the outcome to a status. */
module ModerationController {
  import opened Js
  import ModerationService

  type Verdict = ModerationService.ModerationResponse
  type ModerationRequest = ModerationService.ModerationRequest

  /** A JSON body field as the handler sees it. */
  datatype JsonField = Absent | Text(text: string) | NonString(truthy: bool)

  /** The body `{content, contentType}`; "" stands for an absent contentType. */
  datatype CheckBody = CheckBody(content: JsonField, contentType: string)

  datatype CheckReply = Result(verdict: Verdict) | Error(error: string)

  const ContentRequired := "Content is required and must be a string"
  const ContentEmpty := "Content cannot be empty"

  /** The handler, given what the service does with the request it is sent
      (`service`, used only when the service is called). */
  function Check(body: CheckBody, service: Result<Verdict, string>): (h: Handled<ModerationRequest, CheckReply>)
    ensures !(body.content.Text? && body.content.text != "") ==>
              h == Handled(None, Reply(400, Error(ContentRequired)))
    ensures body.content.Text? && body.content.text != "" && AllWhitespace(body.content.text) ==>
              h == Handled(None, Reply(400, Error(ContentEmpty)))
    ensures h.call.Some? <==> body.content.Text? && !AllWhitespace(body.content.text)
    ensures h.call.Some? ==>
              && h.call.value.content == body.content.text
              && h.call.value.contentType == (if body.contentType == "" then "text" else body.contentType)
    ensures h.call.Some? && service.Success? ==> h.reply == Reply(200, Result(service.value))
    ensures h.call.Some? && service.Failure? ==>
              h.reply.status == 500 && h.reply.body.Error? && h.reply.body.error != ""
              && (service.error != "" ==> h.reply.body.error == service.error)
              && (service.error == "" ==> h.reply.body.error == "Moderation check failed")
  {
    if !body.content.Text? || body.content.text == "" then
      Handled(None, Reply(400, Error(ContentRequired)))
    else
      var content := body.content.text;
      TrimEmptyIffBlank(content);
      if |Trim(content)| == 0 then
        Handled(None, Reply(400, Error(ContentEmpty)))
      else
        var request := ModerationService.ModerationRequest(content, OrElse(body.contentType, "text"));
        match service
        case Success(verdict) => Handled(Some(request), Reply(200, Result(verdict)))
        case Failure(message) => Handled(Some(request), Reply(500, Error(OrElse(message, "Moderation check failed"))))
  }
}
