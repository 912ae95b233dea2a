/** The tweet analysis works on immutable tweets and timespans. Instants
    are modelled as integers (a count of time units), so "before" and
    "after" are `<` and `>`. */
module Tweets {
  /** `Tweet`: an id, the author's username, the text and when it was sent. */
  datatype Tweet = Tweet(id: int, author: string, text: string, timestamp: int)

  /** `Timespan`: the interval from `start` to `end`. */
  datatype Timespan = Timespan(start: int, end: int)
}
