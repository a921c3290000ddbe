/** The context budget: a whitespace word count stands in for a tokenizer,
    and an over-long corpus is cut to its first `TokenLimit` words. */
module Budget {
  import opened Text

  /** The one threshold the code uses, both as the guard and as the default
      trim target (the accompanying comment and log line say 10,000). */
  const TokenLimit: nat := 9000

  /** `estimate_token_count`: the number of whitespace-delimited words. */
  function EstimateTokenCount(text: string): (n: nat)
    ensures n == 0 <==> AllSpace(text)
  {
    WordsEmptyIff(text);
    |Words(text)|
  }

  function Min(a: nat, b: nat): nat {
    if a <= b then a else b
  }

  /** `trim_text_to_token_limit`: the first `maxTokens` words, re-joined
      with single spaces. Its words are exactly that prefix of the input's
      words, so it has `Min(maxTokens, count)` of them. */
  function TrimToTokenLimit(text: string, maxTokens: nat): (r: string)
    ensures Words(r) == Words(text)[..Min(maxTokens, EstimateTokenCount(text))]
    ensures EstimateTokenCount(r) == Min(maxTokens, EstimateTokenCount(text))
  {
    var kept := Words(text)[..Min(maxTokens, |Words(text)|)];
    WordsOfJoin(kept);
    JoinWith(' ', kept)
  }

  /** The start-up guard: trim only when the count exceeds the limit. */
  function ApplyBudget(corpus: string): (r: string)
    ensures EstimateTokenCount(corpus) <= TokenLimit ==> r == corpus
    ensures EstimateTokenCount(corpus) > TokenLimit ==>
      && EstimateTokenCount(r) == TokenLimit
      && Words(r) == Words(corpus)[..TokenLimit]
      && r == JoinWith(' ', Words(corpus)[..TokenLimit])
    ensures EstimateTokenCount(r) <= TokenLimit
  {
    if EstimateTokenCount(corpus) > TokenLimit then TrimToTokenLimit(corpus, TokenLimit) else corpus
  }

  /** Trimming twice to the same limit is trimming once. */
  lemma TrimIdempotent(text: string, maxTokens: nat)
    ensures TrimToTokenLimit(TrimToTokenLimit(text, maxTokens), maxTokens)
         == TrimToTokenLimit(text, maxTokens)
  {
    var once := TrimToTokenLimit(text, maxTokens);
    var kept := Words(text)[..Min(maxTokens, |Words(text)|)];
    assert Words(once) == kept;
    assert Words(once)[..Min(maxTokens, |Words(once)|)] == kept;
  }

  /** Applying the budget to an already budgeted corpus changes nothing. */
  lemma ApplyBudgetIdempotent(corpus: string)
    ensures ApplyBudget(ApplyBudget(corpus)) == ApplyBudget(corpus)
  {
  }

  /** Trimming leaves a text unchanged exactly when the text is within the
      limit and already in single-space form (its words joined by single
      spaces). */
  lemma TrimFixesExactlyNormalized(text: string, maxTokens: nat)
    ensures TrimToTokenLimit(text, maxTokens) == text <==>
      EstimateTokenCount(text) <= maxTokens && text == JoinWith(' ', Words(text))
  {
    var ws := Words(text);
    if EstimateTokenCount(text) <= maxTokens {
      assert ws[..Min(maxTokens, |ws|)] == ws;
    }
    if TrimToTokenLimit(text, maxTokens) == text {
      assert |ws| == Min(maxTokens, |ws|);
      assert ws[..Min(maxTokens, |ws|)] == ws;
    }
  }

  /** Without the guard, trimming is not the identity even below the limit:
      it collapses whitespace runs, which is why the code trims only when
      the count is over the limit. */
  lemma TrimWithoutGuardCollapsesSpaces()
    ensures EstimateTokenCount("a  b") <= TokenLimit
    ensures TrimToTokenLimit("a  b", TokenLimit) == "a b"
    ensures ApplyBudget("a  b") == "a  b"
  {
    WordsAroundSpace("a", ' ', " b");
    WordsAroundSpace("", ' ', "b");
    WordsOfWord("a");
    WordsOfWord("b");
    assert "a" + [' '] + " b" == "a  b";
    assert "" + [' '] + "b" == " b";
    assert Words("a  b") == ["a", "b"];
    assert Words("a  b")[..Min(TokenLimit, 2)] == ["a", "b"];
    assert ["a", "b"][1..] == ["b"];
    assert JoinWith(' ', ["a", "b"]) == "a" + [' '] + "b" == "a b";
  }
}
