# KeyPad predictive-text trie, modelled in Dafny

KeyPad is a phone-keypad keyboard. Each lower-case letter sits on one of
the keys 2 to 9 (abc=2, def=3, …, wxyz=9). The dictionary is loaded into a
trie whose edges are key digits, so all words with the same key sequence
share one node. As the user presses keys, the keyboard keeps the digit
sequence typed so far and asks the trie for suggestions. The suggestions
are the words stored at the node of that sequence, in insertion order.
They are followed by longer words found breadth-first below that node,
skipping the words of the prefix node itself, until the limit
`maxSuggestions` is reached. A word stored twice below the node is
suggested twice.

The model has four modules:

- `KeyCodec` (`key_codec.dfy`): the letter-to-key table and the encoding
  of a word as its key sequence.
- `TrieSpec` (`trie_spec.dfy`): the trie as a value. A `Store` maps every
  node's digit path to the words stored there. The file gives the value
  meaning of insertion, loading, prefix resolution, breadth-first
  gathering (level order, children in ascending key order), suggestions
  and word lookup, and proves their properties.
- `TrieModel` (`trie_model.dfy`): the imperative trie with heap objects.
  The classes are `Node` (children map, words, leaf flag), `Trie` and
  `DeeperSuggestions`. `Node`'s methods are specified by its own fields;
  every method of `Trie`, `DeeperSuggestions` and `Keyboard` is proved
  against `TrieSpec`. A `Trie`
  carries a ghost `contents` store and a ghost map `nodeAt` from paths to
  nodes. `Trie.Valid()` ties the heap to them.
- `KeyboardModel` (`keyboard_model.dfy`): the keyboard's digit sequence
  and `getPredictions`.

The model follows the code, including these behaviours a reader may not
expect:

- `getPrefixLeaf`: when only the last key of the sequence has no child,
  the code reports the prefix as existing and returns the node of the
  sequence without its last key. `PrefixLeaf` and
  `Trie.GetPrefixLeaf` keep this, and so `Suggestions` and `WordExists`
  work from that node.
- `suggestionDepth` only decides whether the breadth-first gatherer runs
  at all (it runs when the depth is above 1). The traversal itself is not
  limited in depth.
- The exact words of the prefix node are never cut to
  `maxSuggestions`. The gatherer gets the rest of the budget, which may be
  zero or negative, and then adds nothing.
- The length check looks only at the node's first word.
- A character outside a–z makes insertion trap on a forced unwrap. The
  model puts that as a precondition (`IsWord`, `Loadable`) rather than as
  an error result.

The code iterates a node's children in Swift dictionary order, which is
unspecified. The model fixes it to ascending key order (2 to 9).

## Model

| member | source | states |
|---|---|---|
| KeyCodec.DigitOf | KeyPad/Keyboard/TrieModel.swift:54-61 | every letter a–z maps to one key in 2..9 |
| KeyCodec.LettersOfIsInverse | KeyPad/Keyboard/TrieModel.swift:54-61 | the letters listed for key d are exactly the letters the table maps to d (the keypad layout, both directions) |
| KeyCodec.Encode | KeyPad/Keyboard/TrieModel.swift:260-261 | a word's key sequence has one key in 2..9 per letter |
| KeyCodec.EncodeAt | KeyPad/Keyboard/TrieModel.swift:260-261 | position i of the key sequence is the table's key for letter i |
| KeyCodec.EncodePrefix | KeyPad/Keyboard/TrieModel.swift:260-268 | the key sequence of a prefix of a word is the prefix of the word's key sequence |
| TrieModel.Node.constructor | KeyPad/Keyboard/TrieModel.swift:15-18 | a new node has no children, no words and is not a leaf |
| TrieModel.Node.AddWord | KeyPad/Keyboard/TrieModel.swift:20-22 | appends the word to the node's words |
| TrieModel.Node.IsLeaf | KeyPad/Keyboard/TrieModel.swift:25-27 | returns the leaf flag |
| TrieModel.Node.GetBranch | KeyPad/Keyboard/TrieModel.swift:31-33 | returns the child at the key; the caller must ensure it exists |
| TrieModel.Node.HasChild | KeyPad/Keyboard/TrieModel.swift:36-38 | true exactly when the node has a child at the key |
| TrieModel.Node.PutNode | KeyPad/Keyboard/TrieModel.swift:41-43 | sets the child at the key and changes no other child |
| TrieModel.Node.SetAsLeaf | KeyPad/Keyboard/TrieModel.swift:46-48 | the node becomes a leaf |
| TrieModel.ClampDepth | KeyPad/Keyboard/TrieModel.swift:207-215 | the kept depth lies in 0..10; an in-range request is kept, one below becomes 0, one above becomes 10 |
| TrieModel.Trie.constructor | KeyPad/Keyboard/TrieModel.swift:191-219 | the new trie is valid; it holds exactly the words before the first empty line, in order; the word count and word list match; the depth is clamped; all its nodes are new, so callers may insert into it |
| TrieModel.Trie.LoadTrie | KeyPad/Keyboard/TrieModel.swift:221-247 | inserts the lines before the first empty line, in order, and appends them to the word list and the count; the trie stays valid |
| TrieModel.Trie.LoadWord | KeyPad/Keyboard/TrieModel.swift:237-241 | one line of the load: inserts the word, appends it to the word list and adds one to the count |
| TrieModel.Trie.Insert | KeyPad/Keyboard/TrieModel.swift:256-272 | the trie becomes `TrieSpec.Insert` of the old one and stays valid; every node it creates is new; every path keeps the node it had |
| TrieModel.Trie.Descend | KeyPad/Keyboard/TrieModel.swift:263-267 | one step of insertion: returns the child at the key, the existing one unchanged when present, else a new empty child added at that path alone; the store gains the path when new |
| TrieModel.Trie.AddChild | KeyPad/Keyboard/TrieModel.swift:263-265 | a fresh empty node is placed at the new path; nothing else changes |
| TrieModel.Trie.AddWordAt | KeyPad/Keyboard/TrieModel.swift:270-271 | the end node becomes a leaf and the word is appended to its words; the trie stays valid |
| TrieModel.Trie.GetPrefixLeaf | KeyPad/Keyboard/TrieModel.swift:276-299 | returns the node and flag that `TrieSpec.PrefixLeaf` gives, including the case where only the last key is missing |
| TrieModel.Trie.GetPrefixNode | KeyPad/Keyboard/TrieModel.swift:303-312 | returns the node of `TrieSpec.PrefixNode`: the resolved node when the prefix exists, none otherwise |
| TrieModel.Trie.WordExists | KeyPad/Keyboard/TrieModel.swift:342-361 | true exactly when the word is among the words of the node `getPrefixLeaf` returns |
| TrieModel.Trie.GetSuggestions | KeyPad/Keyboard/TrieModel.swift:314-340 | returns exactly `TrieSpec.Suggestions` of the trie |
| TrieModel.DeeperSuggestions.constructor | KeyPad/Keyboard/TrieModel.swift:104-116 | records the words already found as a set, runs the traversal once and flattens it: the result is the gathered list |
| TrieModel.DeeperSuggestions.Get | KeyPad/Keyboard/TrieModel.swift:119-121 | returns the flattened suggestions |
| TrieModel.DeeperSuggestions.BreadthTraverse | KeyPad/Keyboard/TrieModel.swift:158-178 | returns `TrieSpec.Gather`: the words of the subtree in level order, found words skipped, cut at the budget |
| TrieModel.DeeperSuggestions.TakeWords | KeyPad/Keyboard/TrieModel.swift:163-170 | appends the node's words that are not in the found set, stopping as soon as the list is full |
| TrieModel.DeeperSuggestions.EnqueueChildren | KeyPad/Keyboard/TrieModel.swift:171-175 | the queue gains the node's children, in ascending key order |
| TrieModel.DeeperSuggestions.FlattenSuggestions | KeyPad/Keyboard/TrieModel.swift:182-188 | appends every inner list, in order |
| TrieSpec.Empty | KeyPad/Keyboard/TrieModel.swift:192-192 | a trie with only a root is well formed |
| TrieSpec.InsertFacts | KeyPad/Keyboard/TrieModel.swift:256-272 | insertion adds a node for every prefix of the word's key sequence, appends the word at its own node, and leaves every other node's words unchanged |
| TrieSpec.InsertWellFormed | KeyPad/Keyboard/TrieModel.swift:256-272 | insertion keeps the trie well formed: prefix-closed, keys 2..9, each word stored at its own key sequence |
| TrieSpec.InsertKeepsWords | KeyPad/Keyboard/TrieModel.swift:256-272 | insertion never removes a word |
| TrieSpec.FirstEmpty | KeyPad/Keyboard/TrieModel.swift:228-234 | the lines before the first empty line are non-empty, and the line there is empty |
| TrieSpec.LoadPrefixStep | KeyPad/Keyboard/TrieModel.swift:230-237 | each line before the first empty one is a word, inserted after the ones before it |
| TrieSpec.LoadPrefixStop | KeyPad/Keyboard/TrieModel.swift:232-234 | loading stops exactly at the first empty line, having inserted every line before it |
| TrieSpec.InsertAllWellFormed | KeyPad/Keyboard/TrieModel.swift:221-247 | loading keeps the trie well formed and keeps every word already stored |
| TrieSpec.InsertAllStoresEach | KeyPad/Keyboard/TrieModel.swift:228-242 | every loaded word is stored at the node of its own key sequence |
| TrieSpec.PrefixIn | KeyPad/Keyboard/TrieModel.swift:260-268 | in a trie built by insertion, every prefix of a node's path is a node |
| TrieSpec.PrefixLeafOutcomes | KeyPad/Keyboard/TrieModel.swift:276-299 | the walk has four outcomes: the root for no keys; the sequence's node when all of it is present; nothing when a key before the last is missing; and the node without the last key, reported as existing, when only the last key is missing |
| TrieSpec.Kids | KeyPad/Keyboard/TrieModel.swift:172-175 | the children queued for a node are exactly its child nodes, one key deeper under a key in 2..9 |
| TrieSpec.KidsFrom | KeyPad/Keyboard/TrieModel.swift:172-175 | the children queued from key `d` on are exactly the child nodes under keys `d`..9 |
| TrieSpec.KidsFromAscending | KeyPad/Keyboard/TrieModel.swift:172-175 | the children queued from key `d` on come in strictly ascending key order, so each once |
| TrieSpec.KidsAscending | KeyPad/Keyboard/TrieModel.swift:172-175 | a node's children are queued in strictly ascending key order, so each once |
| TrieSpec.NextLevel | KeyPad/Keyboard/TrieModel.swift:171-175 | the next level holds only children of nodes of the current level |
| TrieSpec.NextLevelComplete | KeyPad/Keyboard/TrieModel.swift:171-175 | every child of a node of the level is in the next level |
| TrieSpec.OrderComplete | KeyPad/Keyboard/TrieModel.swift:158-178 | when a level holds every node of its depth below a path, the level order from it reaches every deeper node below that path |
| TrieSpec.Gather | KeyPad/Keyboard/TrieModel.swift:158-178 | the gathered list is empty for a budget of zero or less, is never longer than the budget, and holds no found word |
| TrieSpec.GatherSound | KeyPad/Keyboard/TrieModel.swift:158-178 | every gathered word is a stored word, not already found, whose key sequence extends the start node's path |
| TrieSpec.GatherShallowFirst | KeyPad/Keyboard/TrieModel.swift:158-178 | gathered words come shorter first (breadth-first order) |
| TrieSpec.GatherComplete | KeyPad/Keyboard/TrieModel.swift:158-178 | when the budget is not used up, every word below the start node that was not already found is gathered |
| TrieSpec.FrontierStart | KeyPad/Keyboard/TrieModel.swift:159-160 | the traversal starts with the start node as its only level and nothing visited |
| TrieSpec.FrontierStep | KeyPad/Keyboard/TrieModel.swift:162-171 | visiting the front node extends the visited prefix of the level order by that node |
| TrieSpec.FrontierNext | KeyPad/Keyboard/TrieModel.swift:161-175 | when a whole level has been visited, the queue holds the next level, one deeper |
| TrieSpec.FrontierVisit | KeyPad/Keyboard/TrieModel.swift:162-175 | visiting the front node of the queue extends the visited prefix of the level order, adds its words minus the found ones, and queues its children behind the rest of the level |
| TrieSpec.QueueAtLevelEnd | KeyPad/Keyboard/TrieModel.swift:161-175 | once a level is off the queue, the queue is exactly the next level |
| TrieSpec.FrontierEnd | KeyPad/Keyboard/TrieModel.swift:161-177 | when the queue runs empty, the whole level order has been visited |
| TrieSpec.QueueStep | KeyPad/Keyboard/TrieModel.swift:171-175 | removing the front node and pushing its children leaves the rest of the level, then the children queued so far |
| TrieSpec.GatherFull | KeyPad/Keyboard/TrieModel.swift:167-169 | returning as soon as the list is full gives the gathered list |
| TrieSpec.GatherExhausted | KeyPad/Keyboard/TrieModel.swift:161-177 | an emptied queue with room left gives the gathered list |
| TrieSpec.FlattenSnoc | KeyPad/Keyboard/TrieModel.swift:182-188 | flattening one more list appends it |
| TrieSpec.FlattenOne | KeyPad/Keyboard/TrieModel.swift:114-115 | flattening the single traversal result gives that result |
| TrieSpec.Elements | KeyPad/Keyboard/TrieModel.swift:110-112 | the found set holds exactly the words already suggested |
| TrieSpec.SuggestionsNode | KeyPad/Keyboard/TrieModel.swift:316-326 | a non-empty result comes from the sequence's own node, or from its parent when only the last key is missing and the parent stores no word |
| TrieSpec.SuggestionsSound | KeyPad/Keyboard/TrieModel.swift:314-340 | every suggestion is a stored word at least as long as the sequence, whose key sequence extends the typed one (or the typed one without its last key, in the missing-last-key case) |
| TrieSpec.SuggestionsShape | KeyPad/Keyboard/TrieModel.swift:320-336 | a result is empty, or the node's exact words uncut and in order, then deeper words shorter first, none of them an exact word, the total within the limit or the exact words |
| TrieSpec.SuggestionsComplete | KeyPad/Keyboard/TrieModel.swift:333-336 | with deeper suggestions on and the limit not reached, every word below the sequence's node is suggested |
| TrieSpec.StoredThenSuggested | KeyPad/Keyboard/TrieModel.swift:314-340 | every stored word is among the suggestions for its own key sequence, whatever the limits |
| TrieSpec.InsertThenSuggested | KeyPad/Keyboard/TrieModel.swift:314-340 | an inserted word is among the suggestions for its own key sequence |
| TrieSpec.InsertThenExists | KeyPad/Keyboard/TrieModel.swift:342-361 | an inserted word exists at its own key sequence |
| TrieSpec.LoadedWordsExist | KeyPad/Keyboard/TrieModel.swift:342-361 | every word loaded from the dictionary exists at its own key sequence |
| TrieSpec.LoadedWordsSuggested | KeyPad/Keyboard/TrieModel.swift:224-244 | every word loaded from the dictionary is among the suggestions for its own key sequence, whatever the limits |
| KeyboardModel.Pressed | KeyPad/Keyboard/KeyboardModel.swift:27-29 | a pressed key is appended to the digit sequence; -1 leaves it as it is |
| KeyboardModel.NoPredictionsUndo | KeyPad/Keyboard/KeyboardModel.swift:35-37 | a key press without predictions leaves the sequence as before the press; a reload without predictions drops the last key |
| KeyboardModel.PressKeepsPredictable | KeyPad/Keyboard/KeyboardModel.swift:25-43 | after any call the digit sequence is empty or has predictions, if it was so before |
| KeyboardModel.TypingStoredWordKeepsKeys | KeyPad/Keyboard/KeyboardModel.swift:25-43 | typing the keys of a stored word always finds predictions and keeps every key (limit positive, deeper suggestions on) |
| KeyboardModel.Keyboard.constructor | KeyPad/Keyboard/KeyboardModel.swift:11-13 | the trie is a new valid trie loaded from the dictionary with five suggestions and the default depth, its nodes new; the digit sequence starts empty |
| KeyboardModel.Keyboard.Remember | KeyPad/Keyboard/KeyboardViewController.swift:448-452 | a word typed in manual mode is inserted into the trie, which stays valid, only gains new nodes and keeps every node at its path |
| KeyboardModel.Keyboard.GetPredictions | KeyPad/Keyboard/KeyboardModel.swift:25-43 | returns the suggestions of the sequence with the key appended, and keeps that sequence, or drops its last key when there are none |

## Left out

- Reading the dictionary file and splitting it into lines. The
  constructor takes the lines instead. A failed read, which leaves the
  trie empty, is not modelled.
- `insertWordInFile` (writing a learned word back to the file): file I/O.
  It also adds one to `numWords`, so after `Keyboard.Remember` the
  code's word count is one higher than the model's, which `Remember`
  leaves unchanged.
- `setDeeperSuggestions` and `traverse`: no caller reaches them.
- The fields `minFreq`, `maxFreq`, `dictionaryFilename`, `dictURL`,
  `dictPath` and `suggestionCount`: no modelled operation reads them.
- The `print` calls. The global trie and digit sequence of
  `KeyboardModel.swift` become a `Keyboard` object that builds its trie.
- The keyboard view controller: it is UI. Only its insertion of a word
  typed in manual mode is modelled, as `Keyboard.Remember`.
- Swift's dictionary iteration order over a node's children is replaced by
  ascending key order.
- Words are `seq<char>`, and a word's length is its number of `char`s.
  Swift counts grapheme clusters; the two agree on a–z words, the only
  words insertion accepts.
- A character outside a–z traps during insertion. This is a precondition
  here, so the trap itself is not modelled.
- The budget arithmetic `maxSuggestions - suggestions.count` is on
  unbounded integers. In Swift it traps on overflow when
  `maxSuggestions < Int.min + n`, where n is the number of words at the
  prefix node. `maxSuggestions` is a free constructor argument, so for
  such a value `GetSuggestions` returns a list where the code traps. The
  only caller passes 5.
- TrieModel.DeeperSuggestions.constructor: takes the trie and the start
  node's path as ghost parameters, so that its result can be stated
  against the trie's contents.
