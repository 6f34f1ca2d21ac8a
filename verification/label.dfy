/** The caption of a history button: long prompts are cut to a fixed width
    and marked with an ellipsis, short ones are shown whole. */
module HistoryLabel {

  /** Longest prompt shown without cutting. */
  const MaxShown: nat := 20

  /** Marker appended to a cut prompt. */
  const Ellipsis: string := "..."

  /** The button caption for history entry `h`. */
  function Label(h: string): (r: string)
    ensures |r| <= MaxShown + |Ellipsis|
    ensures |h| <= MaxShown ==> r == h
    ensures |h| > MaxShown ==>
              |r| == MaxShown + |Ellipsis| && r[..MaxShown] == h[..MaxShown] && r[MaxShown..] == Ellipsis
    ensures r == h <==> |h| <= MaxShown || (|h| == MaxShown + |Ellipsis| && h[MaxShown..] == Ellipsis)
  {
    if |h| > MaxShown then h[..MaxShown] + Ellipsis else h
  }

  /** A caption is its own caption: cutting an already cut prompt again
      changes nothing. */
  lemma LabelIdempotent(h: string)
    ensures Label(Label(h)) == Label(h)
  {
  }

  /** Two prompts get the same caption exactly when both are shown whole and
      are equal, or both are cut and agree on their first `MaxShown`
      characters: different long prompts can share a button caption. */
  lemma LabelsCoincide(a: string, b: string)
    ensures Label(a) == Label(b) <==>
              || (|a| <= MaxShown && |b| <= MaxShown && a == b)
              || (|a| > MaxShown && |b| > MaxShown && a[..MaxShown] == b[..MaxShown])
  {
  }
}
