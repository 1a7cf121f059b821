/** The per-category shapes the extractors return. */
module Results {
  import opened Optional

  /** Douyin `mix`: the three-valued flag (`False` = the text is a work link,
      `True` = collection links, `None` = neither) and the identifiers. */
  datatype MixResult = MixResult(flag: Option<bool>, ids: seq<string>)

  /** TikTok `mix`: a flag that is always `True`, the collection ids, and one
      title per id (`None` for ids recovered from a fetched page). */
  datatype TitledMix = TitledMix(flag: bool, ids: seq<string>, titles: seq<Option<string>>)

  /** One reflow share link, reduced to its last path segment and its
      `sec_user_id` query value ("" when absent). */
  datatype ReflowRef = ReflowRef(segment: string, secUserId: string)

  /** `live`: `(True, room ids)` for direct links, `(False, reflow pairs)` otherwise. */
  datatype LiveResult = Rooms(ids: seq<string>) | Reflows(pairs: seq<ReflowRef>) {
    /** The boolean the source returns first. */
    predicate Direct() {
      Rooms?
    }
  }

  /** What `run` returns, whichever category was asked for. */
  datatype Extraction =
    | IdList(list: seq<string>)
    | Collection(mix: MixResult)
    | TitledCollection(titled: TitledMix)
    | LiveAnswer(live: LiveResult)

  /** `run`'s outcome: a result, or the `ValueError` raised for an unknown category. */
  datatype RunResult = Ok(value: Extraction) | ValueError

  /** The category strings `run` accepts. */
  const Categories: seq<string> := ["detail", "user", "mix", "live"]
}
