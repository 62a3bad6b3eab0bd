/** `Complaint` page: the message check and what an accepted message leaves
    behind. */
module Complaint {
  import opened Base
  import opened Text

  const MaxLength := 500

  /** The toast `handleSubmit` shows. */
  datatype Notice = WriteMessage | TooLong | Sent

  datatype ComplaintResult = ComplaintResult(message: string, durable: map<string, string>, notice: Notice)

  /** `handleSubmit` for the typed `message`, with `durable` the browser's
      `localStorage`. */
  function Submit(message: string, durable: map<string, string>): (r: ComplaintResult)
    // Accepted exactly when the message is not all white space and at most 500 UTF-16 units long.
    ensures r.notice == Sent <==> !AllWhitespace(message) && JsLength(message) <= MaxLength
    ensures AllWhitespace(message) ==> r == ComplaintResult(message, durable, WriteMessage)
    ensures !AllWhitespace(message) && JsLength(message) > MaxLength ==> r == ComplaintResult(message, durable, TooLong)
    // An accepted message is stored untrimmed and the field is cleared.
    ensures r.notice == Sent ==>
              r.message == "" && r.durable == durable[ComplaintKey := message]
  {
    TrimEmptyIff(message);
    if Trim(message) == "" then ComplaintResult(message, durable, WriteMessage)
    else if JsLength(message) > MaxLength then ComplaintResult(message, durable, TooLong)
    else ComplaintResult("", durable[ComplaintKey := message], Sent)
  }

  /** The blank check comes first: 600 spaces ask for a message rather than
      complaining about length. */
  lemma SpacesAskForMessage(message: string)
    requires |message| == 600 && forall i :: 0 <= i < |message| ==> message[i] == ' '
    ensures Submit(message, map[]).notice == WriteMessage
  {
    assert AllWhitespace(message);
  }

  /** Length is counted before trimming: 499 characters padded with two
      spaces are refused, though the trimmed text is short enough. */
  lemma PaddedMessageTooLong(word: string)
    requires |word| == 499 && forall i :: 0 <= i < |word| ==> word[i] == 'a'
    ensures Submit(" " + word + " ", map[]).notice == TooLong
  {
    var m := " " + word + " ";
    assert m[1] == 'a' && !IsWhitespace(m[1]);
    assert forall i :: 0 <= i < |m| ==> m[i] == ' ' || m[i] == 'a';
  }

  /** `length` counts UTF-16 units: 251 characters from outside the Basic
      Multilingual Plane take 502 units and are refused. */
  lemma AstralTextCountsTwice(message: string)
    requires |message| == 251 && forall i :: 0 <= i < |message| ==> message[i] == '\U{1F600}'
    ensures Submit(message, map[]).notice == TooLong
  {
    assert !IsWhitespace(message[0]);
  }

  /** Whatever is in storage under `complaintMessage` after a submit is a
      message that passed both checks, or was there before. */
  lemma StoredMessageIsAcceptable(message: string, durable: map<string, string>)
    requires ComplaintKey in durable ==> !AllWhitespace(durable[ComplaintKey]) && JsLength(durable[ComplaintKey]) <= MaxLength
    ensures var d := Submit(message, durable).durable;
            ComplaintKey in d ==> !AllWhitespace(d[ComplaintKey]) && JsLength(d[ComplaintKey]) <= MaxLength
  {
  }
}
