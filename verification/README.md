# PyScrabble game pieces and automated player, in Dafny

This project models the two pieces of logic in PyScrabble that work on their own.

- **The game box** (`box.dfy`, module `ScrabbleBox`):
  - The `Board` is a 15 x 15 grid of one-character cells. `'_'` marks an empty cell.
  - `PlaceWord` is the commit primitive. It writes a word one letter per cell along one direction.
  - The `TileBag` is the bag of letter tiles. `Grab` draws up to *n* tiles after a shuffle.
  - `Switch` exchanges tiles. It refuses while 7 or fewer tiles remain.
- **The automated player's dictionary** (`players.dfy`, module `ScrabblePlayers`):
  - The dictionary is a tree of letters. Each node has its path string (`WORD`), a `VALID` flag and one child per next letter.
  - `GenerateDictionaryTree` builds that tree and a set of lines from the dictionary file's lines.
  - `FindWords` is the recursive anagram search. It consumes rack tiles and honours mandated (letter, position) pairs.
  - `TestWord` is set membership.

The board keeps the source's index arithmetic. Coordinates `(x, y)` address `cells[x, y]`. Direction `'D'` advances the second index and `'R'` advances the first. Any other direction writes nothing.

The search is specified by the pure function `Search` and its helpers `Extensions` and `FreeSteps`. The method `AIPlayer.FindWords` keeps the source's loop over the rack and is proved equal to `Search`. Lemma `SearchExact` then states exactly which words the search finds. This characterisation shows the search's behaviour as written:

- `max_length` is checked only by the entry call. Every recursive call gets the default 15 instead.
- A word is added only after the `pos == max_length` test. So a node at depth 15 is never reported, and no 15-letter word is ever found.
- A mandated tile is honoured only while mandated tiles are due position after position. The first free step consumes a rack tile and drops every pending requirement.
- A VALID node is reported at every level, so valid prefixes appear among the results.
- Equal rack tiles are each tried, so the same word can be found more than once.

Where the code departs from the standard rules of Scrabble, the model follows the code:

- `place_word` overwrites whatever letters are already on the cells, without any check. Under the standard rules a placed tile is permanent.
- Dictionary lookups are exact. The code only removes `'\n'` characters from each line: it neither trims other whitespace nor folds case.
- There is no move validation, scoring, turn loop or end-of-game adjustment. `assert_legality` and `play_game` are empty stubs, so none of that is modelled.

Two things the code does are not followed by the model, and "## Left out" lists both:

- Off-board coordinates are not reported as an error by the code: Python raises `IndexError` past the edge, and negative indices wrap. The model requires the written line to lie on the board.
- The code keeps the tile bag as one inner list per letter, not as a count per letter. The model flattens it to one sequence with one entry per tile.

## Model

| member | source | states |
|---|---|---|
| `ScrabbleBox.Board.constructor` | game/scrabble_box.py:33 | a fresh board has 15 rows of 15 cells, every cell `'_'` |
| `ScrabbleBox.Board.PlaceWord` | game/scrabble_box.py:46-62 | with `'D'`, cell `(x, y+i)` holds `word[i]`; with `'R'`, cell `(x+i, y)` holds `word[i]`; old letters are overwritten; no cell off the written line changes, and any other direction changes nothing |
| `ScrabbleBox.TileBag.constructor` | game/scrabble_box.py:76 | the bag holds exactly the given tiles, as a flat sequence |
| `ScrabbleBox.TileBag.Grab` | game/scrabble_box.py:89-106 | the bag is rearranged into the given shuffle; the drawn tiles are its front and the bag keeps the rest; a non-negative count draws exactly `min(n, |bag|)` tiles; a negative count follows Python slicing; drawn plus remaining tiles equal the old bag as multisets; an empty bag yields nothing and stays empty |
| `ScrabbleBox.TileBag.Switch` | game/scrabble_box.py:108-123 | with 7 or fewer tiles in the bag, the discarded tiles come back and the bag is untouched; otherwise `min(|discarded|, |bag|)` tiles are drawn from the pre-exchange bag, the discarded tiles are appended after the draw, and new bag plus drawn tiles equal old bag plus discarded tiles as multisets |
| `ScrabblePlayers.Without` | game/scrabble_players.py:102-113 | when the item is absent the result equals the list; when present the result is one shorter |
| `ScrabblePlayers.WithoutTakesOne` | game/scrabble_players.py:110-112 | when the item is in the list, the result's tiles are the list's tiles with exactly one copy of the item taken away |
| `ScrabblePlayers.WithoutRemovesFirst` | game/scrabble_players.py:110-112 | the occurrence removed is the first one: the result is the list with index `i` cut out, where `i` is the first index holding the item |
| `ScrabblePlayers.AIPlayer.FindWords` | game/scrabble_players.py:75-126 | the recursive search, with its loop over the rack in rack order, returns exactly the sequence `Search` specifies |
| `ScrabblePlayers.SearchExact` | game/scrabble_players.py:88-126 | `branch.word + s` is found iff `pos != maxLength`, `pos + |s| < 15`, `s` leads from the branch to a VALID node, and `s` fits the mandated tiles and the rack (`Fits`) |
| `ScrabblePlayers.SearchExtendsBranch` | game/scrabble_players.py:115-125 | every word found from a branch of a well-formed tree extends that branch's `WORD` |
| `ScrabblePlayers.ExtensionsExtendBranch` | game/scrabble_players.py:119-125 | every word found below a branch strictly extends that branch's `WORD` |
| `ScrabblePlayers.FreeStepsExtendBranch` | game/scrabble_players.py:123-125 | every word found through a rack tile strictly extends the branch's `WORD` |
| `ScrabblePlayers.ExtensionsExact` | game/scrabble_players.py:117-125 | a non-empty extension `s` is found below the branch iff it is short enough, leads to a VALID node and fits the mandated tiles and the rack |
| `ScrabblePlayers.MandatedExact` | game/scrabble_players.py:119-121 | when a mandated tile is due at `pos`, only that letter's child is searched, with the rack unchanged; if the child is absent nothing is found below |
| `ScrabblePlayers.FreeSound` | game/scrabble_players.py:122-125 | a word found through the rack consumes rack tiles: its letters below the branch form a sub-multiset of the rack and lead to a VALID node |
| `ScrabblePlayers.FreeComplete` | game/scrabble_players.py:122-125 | every path to a VALID node whose letters form a sub-multiset of the rack, and which is short enough, is found through the rack |
| `ScrabblePlayers.StepThroughFinds` | game/scrabble_players.py:123-125 | a path to a VALID node, short enough and covered by the rack, is found by the recursive call through the child labelled by its first letter, with that tile removed from the rack |
| `ScrabblePlayers.FreeStepsWitness` | game/scrabble_players.py:123-125 | a word found through the rack loop is found through one rack tile that labels a child, searched with that tile removed |
| `ScrabblePlayers.FreeStepsInclude` | game/scrabble_players.py:123-125 | whatever the search through one rack tile finds is part of the loop's result |
| `ScrabblePlayers.FoundWordsAreDictionaryWords` | game/scrabble_players.py:115-125 | from the root of a dictionary tree, every word found is a non-empty dictionary line of at most 14 letters that fits the mandated tiles and the rack, whatever `maxLength` is |
| `ScrabblePlayers.DictionaryWordsAreFound` | game/tests/test_AIPlayer.py:15-17 | from the root, every non-empty dictionary line of at most 14 letters that fits the mandated tiles and the rack is found, for every `maxLength` other than 0, so the bound is not passed on |
| `ScrabblePlayers.FifteenLetterWordsAreNotFound` | game/scrabble_players.py:88-89 | a 15-letter word is never found from the root, because the depth-15 call returns before reporting its node |
| `ScrabblePlayers.MandatedTileLeads` | game/tests/test_AIPlayer.py:19-21 | with a tile mandated at position 0, every word found is non-empty and starts with that tile |
| `ScrabblePlayers.ImpossibleDemandFindsNothing` | game/tests/test_AIPlayer.py:23-25 | with letters mandated at positions 0 and 1 that no dictionary line starts with, and the first letter alone not a line, the search finds nothing |
| `ScrabblePlayers.FitsTwoMandates` | game/scrabble_players.py:119-121 | letters that fit mandates at positions 0 and 1 are the first letter alone or start with both |
| `ScrabblePlayers.LaterMandateIsDropped` | game/scrabble_players.py:122-125 | a single tile mandated at any position other than 0 binds nothing: every rack anagram in the dictionary is still found |
| `ScrabblePlayers.DuplicateTilesRepeatWords` | game/scrabble_players.py:123-125 | with the dictionary `["A"]` and the rack A, A, the search returns `["A", "A"]` |
| `ScrabblePlayers.RemoveNewlines` | game/scrabble_players.py:140 | the result has no newline, keeps every other character with its count, and is the line itself when the line has no newline |
| `ScrabblePlayers.RemoveNewlinesConcat` | game/scrabble_players.py:140 | removing newlines from `a + b` gives the result for `a` followed by that for `b`, so the other characters keep their order |
| `ScrabblePlayers.FileLine` | game/scrabble_players.py:139-140 | a file line, a word followed by its `'\n'`, becomes the word itself |
| `ScrabblePlayers.DictionaryLines` | game/scrabble_players.py:139-140 | one word per file line and no newline left in any: a line ending in its single `'\n'` gives the word before it, and a line without a newline gives itself |
| `ScrabblePlayers.Insert` | game/scrabble_players.py:143-149 | inserting a word leaves the `WORD` and `VALID` of the node it starts from unchanged |
| `ScrabblePlayers.InsertWellFormed` | game/scrabble_players.py:145-146 | every node created gets its parent's `WORD` plus the edge letter, so a well-formed tree stays well formed |
| `ScrabblePlayers.InsertWords` | game/scrabble_players.py:142-149 | after inserting `w`, the VALID paths are the old ones plus `w` itself when `w` is non-empty |
| `ScrabblePlayers.InsertKeepsValid` | game/scrabble_players.py:148-149 | inserting a word never clears an existing VALID flag |
| `ScrabblePlayers.InsertPaths` | game/scrabble_players.py:144-147 | after inserting `w`, the nodes are the old ones plus the prefixes of `w` |
| `ScrabblePlayers.InsertNextLine` | game/scrabble_players.py:141-149 | one turn of the building loop: inserting line `k` into the tree of the lines before it gives the tree of the lines up to and including `k` |
| `ScrabblePlayers.InsertExtendsDictionary` | game/scrabble_players.py:142-149 | inserting one more line turns the dictionary tree of the lines so far into that of the lines plus the new one |
| `ScrabblePlayers.EmptyTreeIsDictionaryTree` | game/scrabble_players.py:138 | the root `('', VALID=False)` with no children is the dictionary tree of no lines |
| `ScrabblePlayers.AIPlayer.GenerateDictionaryTree` | game/scrabble_players.py:128-150 | the root is `''` and not VALID; every node's `WORD` is its parent's plus the edge letter; a path is VALID iff it is a non-empty line; nodes exist exactly for prefixes of lines; the set is the set of lines |
| `ScrabblePlayers.AIPlayer.constructor` | game/scrabble_players.py:56-73 | a player dealt seven tiles holds them, and its tree and set are built from the dictionary file's lines |
| `ScrabblePlayers.AIPlayer.FindWordsInRack` | game/scrabble_players.py:92-95 | the default entry call searches the player's own rack from the root at position 0; every word it finds is a non-empty dictionary line of at most 14 letters that fits the mandated tiles and the rack |
| `ScrabblePlayers.AIPlayer.TestWord` | game/scrabble_players.py:188-194 | true exactly when the word is one of the dictionary lines with newlines removed; for a non-empty word, exactly when the tree marks its path VALID |

## Left out

- `ScrabbleBox.Board.PlaceWord`: the written line must lie on the board. Python would wrap negative indices and raise `IndexError` past the edge.
- `ScrabbleBox.Board.constructor`: the tile scores come in as a parameter. `docs/tile_scores.json` is not read.
- `ScrabbleBox.TileBag.constructor`: it takes a flat sequence of tiles. The source builds one list per letter from `docs/tile_counts.json`, so its bag is a list of lists.
- `ScrabbleBox.TileBag.Grab` and `ScrabbleBox.TileBag.Switch`: `random.shuffle` becomes the parameter `shuffled`. Any rearrangement of the bag is accepted, and no random number generator is modelled.
- `ScrabbleBox.TileBag.Switch`: the message written to standard error on a refused exchange is dropped.
- `board_special_tiles` is not modelled. It is never read, and it has 13 rows for a 15-row board.
- `Board.__str__` and `TileBag.__str__` are not modelled. They only render text for diagnostics.
- `GameMaster` in `scrabble_box.py` is not modelled. It reads files, deals tiles, and its `assert_legality` and `play_game` are empty stubs.
- `game/game_manager.py` is not part of this model. It is a console turn loop that calls collaborators that do not exist in the code.
- `game/exceptions.py` is not modelled. It holds message-only exception classes that the modelled operations never raise.
- Move validation, scoring and end-of-game scoring are not modelled, because the code has no implementation of them.
- `Player` and `HumanPlayer` are not modelled: name prompting, `prompt_move`, `get_score`, and the score and word histories. `AIPlayer.prompt_move` is unfinished and is not modelled either.
- `ScrabblePlayers.AIPlayer.constructor`: the `assert` that the dealt rack holds 7 tiles (game/scrabble_players.py:21) becomes the precondition `|initTiles| == 7`. The `AssertionError` Python raises for any other rack size is not modelled.
- `ScrabblePlayers.AIPlayer.constructor`: the player's name `"AI <id>"` is not modelled.
- `ScrabblePlayers.AIPlayer.GenerateDictionaryTree`: the file's lines come in as a parameter instead of being read from `docs/dictionary.txt`.
- `ScrabblePlayers.AIPlayer.GenerateDictionaryTree`: the source walks nested dictionaries in place through an alias. The model replaces that inner loop with the function `Insert`, which returns the updated tree. The resulting tree is the same, but aliasing is not modelled.
- `ScrabblePlayers.AIPlayer.FindWords`: the defaults `tiles=None` and `starting_branch=None` are explicit arguments. `FindWordsInRack` models the default entry call.
- `ScrabblePlayers.AIPlayer.FindWords`: the sanity `assert` on mandated tiles becomes a precondition. Like the source, it applies only when `pos != maxLength`.
