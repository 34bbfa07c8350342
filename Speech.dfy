/** The speech sink (NVDA.Speak). The narrator behind it is a foreign call; the model
    keeps the transcript of every string actually handed to it. */
module Speech {

  /** No string in the transcript is empty. */
  predicate NoneEmpty(log: seq<string>)
  {
    forall i :: 0 <= i < |log| ==> log[i] != ""
  }

  /** Hands `text` to the narrator, except that an empty text is dropped. */
  function Speak(log: seq<string>, text: string): (r: seq<string>)
    ensures |log| <= |r| <= |log| + 1 && r[..|log|] == log
    ensures |r| == |log| + 1 <==> text != ""
    ensures |r| == |log| + 1 ==> r[|log|] == text
    ensures forall i :: |log| <= i < |r| ==> r[i] != ""
  {
    if text == "" then log else log + [text]
  }

  /** Speaking never puts an empty string into a transcript that had none. */
  lemma SpeakKeepsNoneEmpty(log: seq<string>, text: string)
    requires NoneEmpty(log)
    ensures NoneEmpty(Speak(log, text))
  {
  }
}
