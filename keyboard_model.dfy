/**
 * The keyboard's typing state: the digit keys pressed so far, extended by
 * each key press and shortened again when the longer sequence has no
 * predictions.
 */
module KeyboardModel {
  import opened KeyCodec
  import opened TrieSpec
  import opened TrieModel

  /** The button id that stands for "no key pressed": reload the predictions. */
  const NoButton := -1

  /** The key sequence to look up: the current one, with the pressed key appended unless there is none. */
  function Pressed(digitSequence: Path, idOfCurrentButton: int): (ks: Path)
    ensures idOfCurrentButton == NoButton ==> ks == digitSequence
    ensures idOfCurrentButton != NoButton ==> |ks| == |digitSequence| + 1 && ks[..|digitSequence|] == digitSequence
    ensures idOfCurrentButton != NoButton ==> ks[|digitSequence|] == idOfCurrentButton
  {
    if idOfCurrentButton != NoButton then digitSequence + [idOfCurrentButton] else digitSequence
  }

  /** The predictions shown after a key press (or a reload). */
  function Predictions(t: Store, digitSequence: Path, idOfCurrentButton: int,
                       maxSuggestions: int, suggestionDepth: int): (r: seq<string>)
  {
    Suggestions(t, Pressed(digitSequence, idOfCurrentButton), maxSuggestions, suggestionDepth)
  }

  /**
   * The digit sequence after a key press (or a reload): the looked-up
   * sequence when it has predictions, otherwise that sequence without its
   * last key (nothing to drop from an empty sequence).
   */
  function NextSequence(t: Store, digitSequence: Path, idOfCurrentButton: int,
                        maxSuggestions: int, suggestionDepth: int): (ks: Path)
  {
    var ks := Pressed(digitSequence, idOfCurrentButton);
    if Predictions(t, digitSequence, idOfCurrentButton, maxSuggestions, suggestionDepth) == [] && ks != []
    then ks[..|ks| - 1]
    else ks
  }

  /** The typing state the keyboard keeps: empty, or a sequence that has predictions. */
  predicate Predictable(t: Store, digitSequence: Path, maxSuggestions: int, suggestionDepth: int) {
    digitSequence == [] || Suggestions(t, digitSequence, maxSuggestions, suggestionDepth) != []
  }

  /**
   * A key press that finds no predictions leaves the sequence as it was
   * before the press; a reload that finds none drops the last key.
   */
  lemma {:induction false} NoPredictionsUndo(t: Store, digitSequence: Path, idOfCurrentButton: int,
                                             maxSuggestions: int, suggestionDepth: int)
    requires Predictions(t, digitSequence, idOfCurrentButton, maxSuggestions, suggestionDepth) == []
    ensures idOfCurrentButton != NoButton ==>
      NextSequence(t, digitSequence, idOfCurrentButton, maxSuggestions, suggestionDepth) == digitSequence
    ensures idOfCurrentButton == NoButton && digitSequence != [] ==>
      NextSequence(t, digitSequence, idOfCurrentButton, maxSuggestions, suggestionDepth) == digitSequence[..|digitSequence| - 1]
  {
    var ks := Pressed(digitSequence, idOfCurrentButton);
    if idOfCurrentButton != NoButton {
      assert ks[..|ks| - 1] == digitSequence;
    }
  }

  /**
   * Key presses keep the typing state predictable: the sequence is left
   * empty or with predictions, whether or not the pressed key found any.
   */
  lemma {:induction false} PressKeepsPredictable(t: Store, digitSequence: Path, idOfCurrentButton: int,
                                                 maxSuggestions: int, suggestionDepth: int)
    requires Predictable(t, digitSequence, maxSuggestions, suggestionDepth)
    ensures Predictable(t, NextSequence(t, digitSequence, idOfCurrentButton, maxSuggestions, suggestionDepth),
                        maxSuggestions, suggestionDepth)
  {
    if Predictions(t, digitSequence, idOfCurrentButton, maxSuggestions, suggestionDepth) == [] {
      NoPredictionsUndo(t, digitSequence, idOfCurrentButton, maxSuggestions, suggestionDepth);
      if idOfCurrentButton == NoButton && digitSequence != [] {
        // a reload that finds nothing: the sequence cannot have had predictions
        assert false;
      }
    }
  }

  /**
   * Typing the keys of a stored word never loses a key: while the
   * sequence is a prefix of the word's digit path, it has predictions and
   * the pressed key is kept (when the deeper suggestions are on and the
   * limit is positive).
   */
  lemma TypingStoredWordKeepsKeys(t: Store, digitSequence: Path, idOfCurrentButton: int,
                                  maxSuggestions: int, suggestionDepth: int, w: string)
    requires WellFormed(t) && maxSuggestions > 0 && suggestionDepth > 1
    requires IsWord(w) && Encode(w) in t && w in t[Encode(w)]
    requires Extends(Encode(w), Pressed(digitSequence, idOfCurrentButton))
    ensures Predictions(t, digitSequence, idOfCurrentButton, maxSuggestions, suggestionDepth) != []
    ensures NextSequence(t, digitSequence, idOfCurrentButton, maxSuggestions, suggestionDepth)
            == Pressed(digitSequence, idOfCurrentButton)
  {
    var ks := Pressed(digitSequence, idOfCurrentButton);
    var e := Encode(w);
    PrefixIn(t, e, |ks|);
    assert PrefixNode(t, ks) == Some(ks);
    var exact := t[ks];
    if exact != [] {
      // a word stored at `ks` is exactly as long as `ks`
      assert exact[0] in t[ks];
      assert |Encode(exact[0])| == |ks|;
    } else {
      var deeper := Gather(t, ks, Elements(exact), maxSuggestions);
      if deeper == [] {
        GatherComplete(t, ks, Elements(exact), maxSuggestions, e, w);
        assert false;
      }
      assert Suggestions(t, ks, maxSuggestions, suggestionDepth) == exact + deeper;
    }
  }

  /** The suggestion limit the keyboard's trie is built with. */
  const KeyboardMaxSuggestions := 5

  /**
   * The keyboard: the trie it predicts from and the digit keys pressed
   * so far.
   */
  class Keyboard {
    const trie: Trie
    var digitSequence: seq<int>

    /**
     * A keyboard over a trie loaded from the dictionary's `lines`, with
     * five suggestions and the default depth, and no keys pressed. The
     * trie and its nodes are new, so its owner may go on inserting words.
     */
    constructor(lines: seq<string>)
      requires Loadable(lines)
      ensures trie.Valid() && trie.contents == Load(lines)
      ensures trie.maxSuggestions == KeyboardMaxSuggestions && trie.suggestionDepth == SuggestionDepthDefault
      ensures fresh(trie) && forall n {:trigger n in trie.Repr} :: n in trie.Repr ==> fresh(n)
      ensures digitSequence == []
    {
      trie := new Trie(lines, KeyboardMaxSuggestions);
      digitSequence := [];
    }

    /**
     * Remembers a word typed in manual mode: inserts it into the trie,
     * which afterwards suggests it for its own key sequence.
     */
    method Remember(newWord: string)
      requires trie.Valid() && IsWord(newWord)
      modifies trie`contents, trie`nodeAt, trie`pathOf, trie`Repr, trie.Repr
      ensures trie.Valid() && trie.contents == TrieSpec.Insert(old(trie.contents), newWord)
      ensures forall n {:trigger n in trie.Repr} :: n in trie.Repr ==> n in old(trie.Repr) || fresh(n)
      ensures Keeps(old(trie.nodeAt), trie.nodeAt)
    {
      ghost var made := trie.Insert(newWord);
    }

    /**
     * `getPredictions`: appends the pressed key (unless reloading), looks
     * up the suggestions of the sequence, and drops the last key when
     * there are none.
     */
    method GetPredictions(idOfCurrentButton: int := NoButton) returns (predictions: seq<string>)
      requires trie.Valid()
      modifies this`digitSequence
      ensures predictions == Predictions(trie.contents, old(digitSequence), idOfCurrentButton,
                                         trie.maxSuggestions, trie.suggestionDepth)
      ensures digitSequence == NextSequence(trie.contents, old(digitSequence), idOfCurrentButton,
                                            trie.maxSuggestions, trie.suggestionDepth)
    {
      if idOfCurrentButton != NoButton {
        digitSequence := digitSequence + [idOfCurrentButton];
      }
      predictions := trie.GetSuggestions(digitSequence);
      if |predictions| == 0 && digitSequence != [] {
        digitSequence := digitSequence[..|digitSequence| - 1];
      }
    }
  }
}
