/** The hackathon record the scraper produces and the urgency engine consumes. */
module Records {
  import opened Wrappers

  /**
   * One registered hackathon. `deadline` is a timestamp in whole seconds; `prize` is the
   * USD-converted prize (absent when none was found); `tags` is always empty when scraped.
   */
  datatype Hackathon = Hackathon(
    name: string,
    url: string,
    deadline: int,
    prize: Option<real>,
    location: string,
    tags: seq<string>)
}
