/** The request status the chat hook hands to the page. */
module ChatStatus {

  /** `ready`: nothing outstanding; `submitted`: request sent, no chunk yet;
      `streaming`: the reply is arriving; `error`: the last request failed. */
  datatype Status = Ready | Submitted | Streaming | Error

  /** `isLoading`: a request is in flight, whether or not its first chunk
      has arrived. An idle page and a failed turn both accept new input. */
  function IsLoading(s: Status): (b: bool)
    ensures b <==> !(s == Ready || s == Error)
  {
    s == Submitted || s == Streaming
  }
}
