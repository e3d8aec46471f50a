/** The text events sent to the automation and API clients. */
module Events {
  datatype TextEvent = TextEvent(text: string, x: int, y: int, w: int, h: int, clear: bool)
}
