/** The part of the browser's Fetch API the web client relies on. */
module FetchApi {
  /** `response.ok`: the status is in 200..299. */
  predicate ResponseOk(status: int)
  {
    200 <= status <= 299
  }
}
