/**
  The state and handlers of the recovery-phrase form in app/page.tsx: a word
  count, one text slot per word, an inline message and the phrase saved in
  memory by the last successful save. Each handler is one atomic transition
  of the component's state.
 */
module RecoveryPhrase {
  import opened Text

  const DefaultWordCount := 12

  /** Array(count).fill(''): count empty slots. */
  function EmptyInputs(count: nat): (inputs: seq<string>)
    ensures |inputs| == count
    ensures forall i :: 0 <= i < count ==> inputs[i] == ""
  {
    seq(count, _ => "")
  }

  /** value.replace(/[^a-z]/gi, ''): keeps the ASCII letters of value, in order and case. */
  function Sanitize(value: string): (r: string)
    ensures |r| <= |value|
    ensures AllLetters(r)
    ensures AllLetters(value) ==> r == value
  {
    if value == [] then []
    else (if IsAsciiLetter(value[0]) then [value[0]] else []) + Sanitize(value[1..])
  }

  /** Every slot holds ASCII letters only. */
  predicate AllLetterWords(inputs: seq<string>) {
    forall i :: 0 <= i < |inputs| ==> AllLetters(inputs[i])
  }

  /** Every saved word is a non-empty string of lower-case ASCII letters. */
  predicate AllLowerWords(phrase: seq<string>) {
    forall i :: 0 <= i < |phrase| ==> phrase[i] != "" && AllLowerLetters(phrase[i])
  }

  /** isSaveDisabled: some slot is empty once trimmed. */
  predicate SaveDisabled(inputs: seq<string>) {
    exists i :: 0 <= i < |inputs| && Trim(inputs[i]) == ""
  }

  /** inputs.map(input => input.trim().toLowerCase()) */
  function FinalPhrase(inputs: seq<string>): (phrase: seq<string>)
    ensures |phrase| == |inputs|
    ensures forall i :: 0 <= i < |inputs| ==> phrase[i] == ToLower(Trim(inputs[i]))
  {
    seq(|inputs|, i requires 0 <= i < |inputs| => ToLower(Trim(inputs[i])))
  }

  /** The message shown when saving with an empty slot. */
  function FillMessage(wordCount: nat): string {
    "Please fill in all " + DecimalString(wordCount) + " words."
  }

  class RecoveryPhrasePage {
    var isLoading: bool
    var wordCount: nat
    var inputs: seq<string>
    var message: string
    var savedPhrase: seq<string>

    /** One slot per word, slots hold letters only, saved words are lower-case letters. */
    ghost predicate Valid()
      reads this
    {
      |inputs| == wordCount && AllLetterWords(inputs) && AllLowerWords(savedPhrase)
    }

    /** The state on mount: loading, 12 empty slots, no message, nothing saved. */
    constructor ()
      ensures Valid()
      ensures isLoading && wordCount == DefaultWordCount && inputs == EmptyInputs(DefaultWordCount)
      ensures message == "" && savedPhrase == []
    {
      isLoading := true;
      wordCount := DefaultWordCount;
      inputs := EmptyInputs(DefaultWordCount);
      message := "";
      savedPhrase := [];
    }

    /** The loader timer fires: the form is shown; nothing else changes. */
    method LoaderElapsed()
      requires Valid()
      modifies this
      ensures Valid() && !isLoading
      ensures wordCount == old(wordCount) && inputs == old(inputs)
      ensures message == old(message) && savedPhrase == old(savedPhrase)
    {
      isLoading := false;
    }

    /** handleWordCountChange: count empty slots, message cleared, saved phrase kept. */
    method HandleWordCountChange(count: nat)
      requires Valid()
      modifies this
      ensures Valid()
      ensures wordCount == count && inputs == EmptyInputs(count) && message == ""
      ensures savedPhrase == old(savedPhrase) && isLoading == old(isLoading)
    {
      wordCount := count;
      inputs := EmptyInputs(count);
      message := "";
    }

    /** handleInputChange: the sanitised value goes to slot index and nowhere else; the message is cleared. */
    method HandleInputChange(index: nat, value: string)
      requires Valid() && index < |inputs|
      modifies this
      ensures Valid()
      ensures inputs == old(inputs)[index := Sanitize(value)] && message == ""
      ensures wordCount == old(wordCount) && savedPhrase == old(savedPhrase) && isLoading == old(isLoading)
    {
      var sanitizedValue := Sanitize(value);
      var newInputs := inputs;
      newInputs := newInputs[index := sanitizedValue];
      inputs := newInputs;
      if message != "" {
        message := "";
      }
    }

    predicate IsSaveDisabled()
      reads this
    {
      SaveDisabled(inputs)
    }

    /**
      handleSave: with an empty slot only the message changes, to the fill-in
      request; otherwise the trimmed, lower-cased words are saved and the
      message is cleared. The slots are never changed.
     */
    method HandleSave()
      requires Valid()
      modifies this
      ensures Valid()
      ensures inputs == old(inputs) && wordCount == old(wordCount) && isLoading == old(isLoading)
      ensures old(IsSaveDisabled()) ==> message == FillMessage(wordCount) && savedPhrase == old(savedPhrase)
      ensures !old(IsSaveDisabled()) ==> savedPhrase == FinalPhrase(inputs) && message == ""
    {
      if IsSaveDisabled() {
        message := FillMessage(wordCount);
        return;
      }
      var finalPhrase := FinalPhrase(inputs);
      FinalPhraseOfLetterWords(inputs);
      savedPhrase := finalPhrase;
      message := "";
    }

    /** handleClear: empty slots, no message, nothing saved; the word count stays. */
    method HandleClear()
      requires Valid()
      modifies this
      ensures Valid()
      ensures inputs == EmptyInputs(wordCount) && message == "" && savedPhrase == []
      ensures wordCount == old(wordCount) && isLoading == old(isLoading)
    {
      inputs := EmptyInputs(wordCount);
      message := "";
      savedPhrase := [];
    }
  }

  // ----- The sanitiser -----

  /** The sanitiser works character by character: it distributes over concatenation. */
  lemma {:induction false} SanitizeAppend(a: string, b: string)
    ensures Sanitize(a + b) == Sanitize(a) + Sanitize(b)
  {
    if a == [] {
      assert a + b == b;
    } else {
      assert (a + b)[0] == a[0];
      assert (a + b)[1..] == a[1..] + b;
      SanitizeAppend(a[1..], b);
    }
  }

  /** A single character is kept exactly when it is an ASCII letter. */
  lemma SanitizeChar(c: char)
    ensures Sanitize([c]) == if IsAsciiLetter(c) then [c] else []
  {
    assert [c][1..] == [];
  }

  /** Sanitising twice is sanitising once. */
  lemma SanitizeIdempotent(value: string)
    ensures Sanitize(Sanitize(value)) == Sanitize(value)
  {
  }

  lemma SanitizeExample()
    ensures Sanitize("Ab3!c") == "Abc"
  {
  }

  // ----- Validation and saving -----

  /** With letter-only slots, trimming changes nothing: save is disabled exactly when a slot is empty. */
  lemma SaveDisabledIffSomeEmpty(inputs: seq<string>)
    requires AllLetterWords(inputs)
    ensures SaveDisabled(inputs) <==> exists i :: 0 <= i < |inputs| && inputs[i] == ""
  {
    forall i | 0 <= i < |inputs| ensures Trim(inputs[i]) == inputs[i] {
      LettersTrimToThemselves(inputs[i]);
    }
  }

  lemma LettersTrimToThemselves(s: string)
    requires AllLetters(s)
    ensures Trim(s) == s
  {
    assert NoWhitespace(s) by {
      forall i | 0 <= i < |s| ensures !IsWhitespace(s[i]) {
        assert IsAsciiLetter(s[i]);
      }
    }
    TrimNoWhitespace(s);
  }

  /**
    What an enabled save stores: one word per slot, the slot's letters in
    lower case, each non-empty.
   */
  lemma FinalPhraseOfLetterWords(inputs: seq<string>)
    requires AllLetterWords(inputs) && !SaveDisabled(inputs)
    ensures |FinalPhrase(inputs)| == |inputs|
    ensures forall i :: 0 <= i < |inputs| ==> FinalPhrase(inputs)[i] == ToLower(inputs[i])
    ensures AllLowerWords(FinalPhrase(inputs))
  {
    SaveDisabledIffSomeEmpty(inputs);
    forall i | 0 <= i < |inputs|
      ensures FinalPhrase(inputs)[i] == ToLower(inputs[i])
      ensures FinalPhrase(inputs)[i] != "" && AllLowerLetters(FinalPhrase(inputs)[i])
    {
      LettersTrimToThemselves(inputs[i]);
      ToLowerOfLetters(inputs[i]);
    }
  }

  /** Freshly emptied slots (on mount, after a count change, after clear) disable save. */
  lemma EmptyInputsDisableSave(count: nat)
    requires count > 0
    ensures SaveDisabled(EmptyInputs(count))
  {
    assert Trim(EmptyInputs(count)[0]) == "";
  }

  /** The two messages the word-count buttons make possible. */
  lemma FillMessageExamples()
    ensures FillMessage(12) == "Please fill in all 12 words."
    ensures FillMessage(24) == "Please fill in all 24 words."
  {
    assert DecimalString(12) == "12";
    assert DecimalString(24) == "24";
  }

  /** Different word counts give different messages. */
  lemma FillMessageInjective(m: nat, n: nat)
    requires FillMessage(m) == FillMessage(n)
    ensures m == n
  {
    var prefix := "Please fill in all ";
    var dm, dn := DecimalString(m), DecimalString(n);
    assert FillMessage(m)[|prefix|..|FillMessage(m)| - |" words."|] == dm;
    assert FillMessage(n)[|prefix|..|FillMessage(n)| - |" words."|] == dn;
    DecimalStringInjective(m, n);
  }
}
