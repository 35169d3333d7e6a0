/** The payloads exchanged with the rule endpoint of the filtered-stream API. */
module TwitterApi {
  import opened Wrappers

  /** One rule of the listing. The server assigns `id`; either field may be null after decoding. */
  datatype SearchRule = SearchRule(id: Option<string>, value: Option<string>)

  /** The decoded body of the listing call. `data` may be null, and so may any element of it. */
  datatype SearchResult = SearchResult(data: Option<seq<Option<SearchRule>>>)

  /** One entry of the `add` list of a create request. */
  datatype CreateRule = CreateRule(value: string)
}
