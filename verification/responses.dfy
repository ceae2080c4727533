/**
 * The parsed JSON answer of the language model, as far as the crawler and
 * the adapter look into it. `json.loads` itself is not modelled: a parse is
 * either `NotJson` or an object with its `related_links` entry.
 */
module Responses {

  datatype Option<+T> = None | Some(value: T)

  /**
   * One element of `related_links`. A field is `None` when its key is absent;
   * `relevance` holds the model's 高 / 中 / 低 grade when present.
   */
  datatype Link = Link(url: Option<string>, title: Option<string>, relevance: Option<string>)

  /** A JSON object answer; `relatedLinks` is `None` when the key is absent. */
  datatype Reply = Reply(relatedLinks: Option<seq<Link>>)

  /** Outcome of `json.loads` on the model's raw text. */
  datatype Parsed = NotJson | Json(reply: Reply)
}
