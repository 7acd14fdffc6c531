/** The context window around a regex match used by the snippet helpers.
    The matcher is not modelled: its result is the list of match spans,
    each a half-open range `[start, end)` of the text. */
module Snippets {

  /** The ANSI colour codes `RED` and `RESET`. */
  const Red: string := "\U{1B}[31m"
  const Reset: string := "\U{1B}[0m"

  datatype Span = Span(start: nat, end: nat)

  /** Every span lies within the text, as `match.span()` does. */
  predicate ValidSpans(text: string, spans: seq<Span>)
  {
    forall k | 0 <= k < |spans| :: spans[k].start <= spans[k].end <= |text|
  }

  /** `max(start - context_chars, 0)`. */
  function WindowStart(start: nat, context: nat): (ss: nat)
    ensures ss <= start && start - ss <= context
    ensures ss == 0 || start - ss == context
  {
    if start >= context then start - context else 0
  }

  /** `min(end + context_chars, len(text))`. */
  function WindowEnd(end: nat, context: nat, len: nat): (se: nat)
    requires end <= len
    ensures end <= se <= len && se - end <= context
    ensures se == len || se - end == context
  {
    if end + context <= len then end + context else len
  }

  /** `text[snippet_start:start]`: at most `context` characters. */
  function Before(text: string, s: Span, context: nat): (b: string)
    requires s.start <= s.end <= |text|
    ensures |b| <= context
  {
    text[WindowStart(s.start, context)..s.start]
  }

  /** `text[end:snippet_end]`: at most `context` characters. */
  function After(text: string, s: Span, context: nat): (a: string)
    requires s.start <= s.end <= |text|
    ensures |a| <= context
  {
    text[s.end..WindowEnd(s.end, context, |text|)]
  }

  /** `text[start:end]`. */
  function Matched(text: string, s: Span): string
    requires s.start <= s.end <= |text|
  {
    text[s.start..s.end]
  }

  /** The three parts put back together are the window of the text from
      the window start to the window end. */
  lemma WindowContiguous(text: string, s: Span, context: nat)
    requires s.start <= s.end <= |text|
    ensures Before(text, s, context) + Matched(text, s) + After(text, s, context)
         == text[WindowStart(s.start, context)..WindowEnd(s.end, context, |text|)]
  {
    var ss, se := WindowStart(s.start, context), WindowEnd(s.end, context, |text|);
    assert text[ss..se] == text[ss..s.start] + text[s.start..s.end] + text[s.end..se];
  }
}
