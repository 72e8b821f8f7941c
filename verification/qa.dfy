/** The transcript context handed to the question-answering prompt: a
    transcript longer than the limit is cut to the limit and marked with an
    ellipsis. */
module QaContext {
  import opened PyText

  const Ellipsis := "..."

  /** `max_qa_transcript_length` of the current plugin's default configuration. */
  const DefaultMaxQaLength := 6000

  /** The fixed limit of the universal plugin. */
  const UniversalMaxQaLength := 6000

  /** `transcript[:m] + "..."` when `len(transcript) > m`, else the transcript.
      The limit comes from configuration and may be any integer; a negative
      one cuts from the end, as Python slicing does. */
  function TruncateForQa(transcript: string, maxLen: int): (r: string)
    ensures |transcript| <= maxLen ==> r == transcript
    ensures |transcript| > maxLen ==>
      |r| >= |Ellipsis| && r[|r| - |Ellipsis|..] == Ellipsis
      && StartsWith(transcript, r[..|r| - |Ellipsis|])
    ensures 0 <= maxLen ==> |r| <= maxLen + |Ellipsis|
    ensures 0 <= maxLen < |transcript| ==> |r| == maxLen + |Ellipsis| && r[..maxLen] == transcript[..maxLen]
  {
    if |transcript| > maxLen then PyPrefix(transcript, maxLen) + Ellipsis else transcript
  }

  /** The universal plugin's cut at its fixed limit. It keeps a transcript up
      to the limit whole, and otherwise the first `UniversalMaxQaLength`
      characters plus the ellipsis. This is what the current plugin does
      with its default configuration. */
  function UniversalQaContext(transcript: string): (r: string)
    ensures |transcript| <= UniversalMaxQaLength ==> r == transcript
    ensures |transcript| > UniversalMaxQaLength ==>
      |r| == UniversalMaxQaLength + |Ellipsis| && r[..UniversalMaxQaLength] == transcript[..UniversalMaxQaLength]
      && r[UniversalMaxQaLength..] == Ellipsis
    ensures r == TruncateForQa(transcript, DefaultMaxQaLength)
  {
    TruncateForQa(transcript, UniversalMaxQaLength)
  }
}
