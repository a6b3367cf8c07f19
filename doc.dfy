/**
 * The part of a spaCy `Doc` the pipeline reads: a sequence of tokens, each
 * with its text and the whitespace that follows it, and spans cut from it
 * with Python slice bounds.
 */
module Doc {

  datatype Token = Token(text: string, ws: string)

  /** `s[a:b]` for non-negative bounds: both are clamped to the length, and an inverted range is empty. */
  function Slice<T>(s: seq<T>, a: nat, b: nat): (r: seq<T>)
    ensures a <= b <= |s| ==> r == s[a..b]
    ensures b <= a ==> r == []
  {
    var hi := if b <= |s| then b else |s|;
    var lo := if a <= hi then a else hi;
    s[lo..hi]
  }

  /** `s[a:]` */
  function SliceFrom<T>(s: seq<T>, a: nat): (r: seq<T>)
    ensures a <= |s| ==> r == s[a..]
    ensures |s| <= a ==> r == []
  {
    Slice(s, a, |s|)
  }

  /**
   * `Span.text`: every token's text followed by its whitespace, except that
   * the whitespace after the last token is not included.
   */
  function SpanText(toks: seq<Token>): string
  {
    if |toks| == 0 then ""
    else if |toks| == 1 then toks[0].text
    else toks[0].text + toks[0].ws + SpanText(toks[1..])
  }

  /** `[token.text for token in span]` */
  function Texts(toks: seq<Token>): (r: seq<string>)
    ensures |r| == |toks|
    ensures forall i :: 0 <= i < |toks| ==> r[i] == toks[i].text
  {
    seq(|toks|, i requires 0 <= i < |toks| => toks[i].text)
  }
}
