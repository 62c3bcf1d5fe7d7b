/** The payload of the `new_poll` event, which the teacher page sends and the server stores. */
module Protocol {

  /** `{question, options, duration}`; `duration` is in seconds. */
  datatype PollData = PollData(question: string, options: seq<string>, duration: int)

}
