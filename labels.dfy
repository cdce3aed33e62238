/**
 * The label of one document: the pure part of `get_pdf_context`
 * (FileSorter.py:16-37) and `extract_context_from_response`
 * (FileSorter.py:39-48), which takes the text between the first pair of `**`
 * markers on one line of the model's reply.
 */
module Labels {
  import opened Wrappers
  import opened Text

  // ---------------------------------------------------------------------------
  // The search for `\*\*(.*?)\*\*`

  /** A `**` marker starts at index `k` of `s`. */
  predicate MarkerAt(s: string, k: int) {
    0 <= k && k + 2 <= |s| && s[k] == '*' && s[k + 1] == '*'
  }

  /** No line break in `s[a..b]`: the characters the regular-expression dot may consume. */
  predicate NoNewline(s: string, a: int, b: int) {
    forall k :: a <= k < b && 0 <= k < |s| ==> s[k] != '\n'
  }

  /** `\*\*(.*?)\*\*` can match with its opening marker at `i` and its closing marker at `j`. */
  ghost predicate Encloses(s: string, i: int, j: int) {
    MarkerAt(s, i) && MarkerAt(s, j) && i + 2 <= j && NoNewline(s, i + 2, j)
  }

  /**
   * The match `re.search` reports: the leftmost opening marker that has a
   * closing one, and for it the nearest closing marker (the dot is lazy).
   */
  ghost predicate FirstEnclosure(s: string, i: int, j: int) {
    Encloses(s, i, j)
    && forall i', j' :: Encloses(s, i', j') ==> i < i' || (i == i' && j <= j')
  }

  /** The nearest closing marker at or after `from` that no line break precedes. */
  function CloseFrom(s: string, from: nat): (r: Option<nat>)
    ensures r.Some? ==> from <= r.value && MarkerAt(s, r.value) && NoNewline(s, from, r.value)
    ensures r.Some? ==> forall j :: from <= j < r.value ==> !MarkerAt(s, j)
    ensures r.None? ==> forall j :: from <= j && MarkerAt(s, j) ==> !NoNewline(s, from, j)
    decreases |s| - from
  {
    if from + 2 > |s| then None
    else if s[from] == '*' && s[from + 1] == '*' then Some(from)
    else if s[from] == '\n' then None
    else CloseFrom(s, from + 1)
  }

  /** The leftmost match whose opening marker is at or after `from`. */
  function OpenFrom(s: string, from: nat): (r: Option<(nat, nat)>)
    ensures r.Some? ==> from <= r.value.0 && Encloses(s, r.value.0, r.value.1)
    ensures r.Some? ==> forall i, j :: from <= i && Encloses(s, i, j) ==>
                          r.value.0 < i || (r.value.0 == i && r.value.1 <= j)
    ensures r.None? ==> forall i, j :: from <= i ==> !Encloses(s, i, j)
    decreases |s| - from
  {
    if from + 2 > |s| then None
    else if MarkerAt(s, from) && CloseFrom(s, from + 2).Some? then
      Some((from, CloseFrom(s, from + 2).value))
    else OpenFrom(s, from + 1)
  }

  /** `re.search(r"\*\*(.*?)\*\*", s)`: the bounds of the two markers of the match, if any. */
  function SearchMarkers(s: string): (r: Option<(nat, nat)>)
    ensures r.Some? ==> FirstEnclosure(s, r.value.0, r.value.1)
    ensures r.None? <==> forall i, j :: !Encloses(s, i, j)
  {
    OpenFrom(s, 0)
  }

  /**
   * `extract_context_from_response`: the text inside the first `**...**`
   * pair on one line, or else the whole reply, trimmed.
   */
  function ExtractContext(response: string): (extracted: string)
    ensures Trimmed(extracted)
  {
    var m := SearchMarkers(response);
    if m.Some? then
      StripIsTrimmed(response[m.value.0 + 2..m.value.1]);
      Strip(response[m.value.0 + 2..m.value.1])
    else
      StripIsTrimmed(response);
      Strip(response)
  }

  /**
   * The label is the stripped text between the markers of the match
   * `re.search` reports, and the whole reply stripped when nothing matches.
   */
  lemma ExtractContextMatch(response: string)
    ensures forall i, j :: FirstEnclosure(response, i, j) ==> ExtractContext(response) == Strip(response[i + 2..j])
    ensures (forall i, j :: !Encloses(response, i, j)) ==> ExtractContext(response) == Strip(response)
  {
    var m := SearchMarkers(response);
    if m.Some? {
      forall i, j | FirstEnclosure(response, i, j) ensures ExtractContext(response) == Strip(response[i + 2..j]) {
        FirstEnclosureUnique(response, i, j, m.value.0, m.value.1);
      }
    }
  }

  // ---------------------------------------------------------------------------
  // get_pdf_context without the parser and the model

  const SNIPPET_LENGTH: nat := 1000

  /** The label given to a document without text, and to an empty reply. */
  const NO_CONTENT: string := "NoContent"

  const PROMPT_HEAD: string :=
    "Extract the core context of the following text in exactly one or two words. "
    + "Return only the one or two words with no extra commentary:\n\n"

  /** `content[:1000]`: at most the first 1000 characters. */
  function Head(content: string): (r: string)
    ensures |r| <= SNIPPET_LENGTH && r <= content
    ensures |content| <= SNIPPET_LENGTH ==> r == content
    ensures |content| > SNIPPET_LENGTH ==> r == content[..SNIPPET_LENGTH]
  {
    if |content| <= SNIPPET_LENGTH then content else content[..SNIPPET_LENGTH]
  }

  /** `content[:1000].strip()`. */
  function Snippet(content: string): (r: string)
    ensures |r| <= SNIPPET_LENGTH && Trimmed(r)
    ensures exists a: nat :: StripsTo(Head(content), a, r)
  {
    StripIsTrimmed(Head(content));
    Strip(Head(content))
  }

  /** The prompt sent to the model for a document whose text is `content`. */
  function Prompt(content: string): string {
    PROMPT_HEAD + Snippet(content)
  }

  /**
   * `get_pdf_context` with the document parser's output (`None` or a text)
   * and the chat model's reply to the prompt sent for this document given as
   * parameters.
   */
  function PdfContext(content: Option<string>, chat: string -> string): (r: string)
    ensures r != [] && Trimmed(r)
    ensures content == None || content == Some([]) ==> r == NO_CONTENT
    ensures r != NO_CONTENT ==> content.Some? && r == Strip(chat(Prompt(content.value)))
    ensures content.Some? && content.value != [] && Strip(chat(Prompt(content.value))) != [] ==>
              r == Strip(chat(Prompt(content.value)))
  {
    if content.None? || content.value == [] then NO_CONTENT
    else
      var reply := Strip(chat(Prompt(content.value)));
      StripIsTrimmed(chat(Prompt(content.value)));
      if reply == [] then NO_CONTENT else reply
  }

  // ---------------------------------------------------------------------------
  // Properties

  /** The match `re.search` reports is unique. */
  lemma FirstEnclosureUnique(s: string, i: int, j: int, i': int, j': int)
    requires FirstEnclosure(s, i, j) && FirstEnclosure(s, i', j')
    ensures i == i' && j == j'
  {
  }

  /** A reply that follows the instructions, `**X**` alone on its line, yields `X` trimmed. */
  lemma {:induction false} ExtractMarked(before: string, x: string, after: string)
    requires forall k :: 0 <= k < |x| ==> x[k] != '*' && x[k] != '\n'
    requires forall k :: 0 <= k && k + 1 < |before| ==> !(before[k] == '*' && before[k + 1] == '*')
    requires before == [] || before[|before| - 1] != '*'
    ensures ExtractContext(before + "**" + x + "**" + after) == Strip(x)
  {
    var s := before + "**" + x + "**" + after;
    var i, j := |before|, |before| + 2 + |x|;
    assert s[i + 2..j] == x;
    assert Encloses(s, i, j);
    forall i', j' | Encloses(s, i', j') ensures i < i' || (i == i' && j <= j') {
    }
    assert FirstEnclosure(s, i, j);
    ExtractContextMatch(s);
  }
}
