/**
 * The automated player's dictionary: a tree of letters built from the word
 * list, the anagram search over that tree that honours mandated
 * (letter, position) pairs, and the word-membership test
 * (game/scrabble_players.py).
 */
module ScrabblePlayers {

  /** The position bound that every recursive search call receives. */
  const DefaultMaxLength := 15

  /** A node of the dictionary tree: the letters on the path from the root
      (WORD), whether those letters form a dictionary word (VALID), and one
      child per letter that can follow. */
  datatype Node = Node(word: string, valid: bool, children: map<char, Node>)

  /** A mandated tile: a letter and the zero-based position in the created
      word at which it must stand. */
  type Requirement = (char, int)

  /** The root of a tree built from no words at all. */
  const EmptyTree := Node("", false, map[])

  // ---------------------------------------------------------------------
  // Shape of a tree
  // ---------------------------------------------------------------------

  /** Every child's WORD is its parent's WORD followed by the edge letter. */
  ghost predicate WellFormed(n: Node)
    decreases n
  {
    forall c :: c in n.children ==> n.children[c].word == n.word + [c] && WellFormed(n.children[c])
  }

  /** The letters `s`, followed edge by edge from `n`, reach some node. */
  predicate HasPath(n: Node, s: string)
    decreases |s|
  {
    s == [] || (s[0] in n.children && HasPath(n.children[s[0]], s[1..]))
  }

  /** The letters `s`, followed edge by edge from `n`, reach a VALID node. */
  predicate IsWordAt(n: Node, s: string)
    decreases |s|
  {
    if s == [] then n.valid else s[0] in n.children && IsWordAt(n.children[s[0]], s[1..])
  }

  // ---------------------------------------------------------------------
  // The rack helper `without`
  // ---------------------------------------------------------------------

  /** A copy of `tiles` without the first occurrence of `item`, or an equal
      copy when `item` does not occur; the argument itself is a value and is
      never changed. */
  function Without(tiles: seq<char>, item: char): (r: seq<char>)
    ensures item !in tiles ==> r == tiles
    ensures item in tiles ==> |r| == |tiles| - 1
  {
    if tiles == [] then []
    else if tiles[0] == item then tiles[1..]
    else [tiles[0]] + Without(tiles[1..], item)
  }

  /** `Without` takes exactly one copy of `item` out of the rack when it
      holds one. */
  lemma {:induction false} WithoutTakesOne(tiles: seq<char>, item: char)
    requires item in tiles
    ensures multiset(Without(tiles, item)) == multiset(tiles) - multiset{item}
  {
    assert tiles == [tiles[0]] + tiles[1..];
    if tiles[0] != item {
      WithoutTakesOne(tiles[1..], item);
    }
  }

  /** `Without` removes exactly the first occurrence, at index `i`. */
  lemma {:induction false} WithoutRemovesFirst(tiles: seq<char>, item: char, i: nat)
    requires i < |tiles| && tiles[i] == item && item !in tiles[..i]
    ensures Without(tiles, item) == tiles[..i] + tiles[i + 1..]
  {
    if i == 0 {
      assert tiles[..0] + tiles[1..] == tiles[1..];
    } else {
      var rest := tiles[1..];
      assert tiles[0] in tiles[..i];
      assert item !in rest[..i - 1] by {
        assert tiles[..i] == [tiles[0]] + rest[..i - 1];
      }
      WithoutRemovesFirst(rest, item, i - 1);
      calc {
        Without(tiles, item);
        [tiles[0]] + Without(rest, item);
        [tiles[0]] + (rest[..i - 1] + rest[i..]);
        { assert [tiles[0]] + rest[..i - 1] == tiles[..i]; assert rest[i..] == tiles[i + 1..]; }
        tiles[..i] + tiles[i + 1..];
      }
    }
  }

  // ---------------------------------------------------------------------
  // The anagram search `find_words`
  // ---------------------------------------------------------------------

  /** The sanity check on mandated tiles: a single pair, or positions
      strictly increasing from each pair to the next. */
  predicate Ordered(req: seq<Requirement>)
  {
    |req| == 1 || forall i :: 0 <= i < |req| - 1 ==> req[i].1 < req[i + 1].1
  }

  /** The words found from `branch` when the search stands at position
      `pos`: nothing once `pos` reaches `maxLength`, otherwise the branch's own
      word when it is VALID followed by the words found below it. */
  function Search(tiles: seq<char>, branch: Node, req: seq<Requirement>, pos: int, maxLength: int): seq<string>
    requires pos == maxLength || Ordered(req)
    decreases branch, 3
  {
    if pos == maxLength then []
    else (if branch.valid then [branch.word] else []) + Extensions(tiles, branch, req, pos)
  }

  /** The words found strictly below `branch`. A mandated tile due at `pos`
      is followed alone, with the rack passed on unchanged; otherwise every
      rack tile in turn that labels a child is consumed, and the search goes
      on with no mandated tiles at all. Every recursive call has the default
      bound `DefaultMaxLength`. */
  function Extensions(tiles: seq<char>, branch: Node, req: seq<Requirement>, pos: int): seq<string>
    requires Ordered(req)
    decreases branch, 2
  {
    if |req| > 0 && req[0].1 == pos then
      if req[0].0 in branch.children
      then Search(tiles, branch.children[req[0].0], req[1..], pos + 1, DefaultMaxLength)
      else []
    else FreeSteps(tiles, branch, pos, |tiles|)
  }

  /** The words found through the first `k` rack tiles, in rack order. */
  function FreeSteps(tiles: seq<char>, branch: Node, pos: int, k: nat): seq<string>
    requires k <= |tiles|
    decreases branch, 1, k
  {
    if k == 0 then [] else FreeSteps(tiles, branch, pos, k - 1) + StepThrough(tiles, branch, pos, tiles[k - 1])
  }

  /** The words found by consuming rack tile `c` at position `pos`: none
      when `c` labels no child, otherwise the search of that child with one
      `c` taken out of the rack and no mandated tiles. */
  function StepThrough(tiles: seq<char>, branch: Node, pos: int, c: char): seq<string>
    decreases branch, 0
  {
    if c in branch.children
    then Search(Without(tiles, c), branch.children[c], [], pos + 1, DefaultMaxLength)
    else []
  }

  /** The letters `s`, written from position `pos` on, honour the mandated
      tiles that are due position after position and, from the first
      position that has none due, take only tiles of the rack. */
  predicate Fits(s: string, tiles: seq<char>, req: seq<Requirement>, pos: int)
    decreases |s|
  {
    if s == [] then true
    else if |req| > 0 && req[0].1 == pos then s[0] == req[0].0 && Fits(s[1..], tiles, req[1..], pos + 1)
    else multiset(s) <= multiset(tiles)
  }

  /** A word extending a child's word spells the child's edge letter next. */
  lemma ChildPrefix(word: string, c: char, s: string)
    requires word + [c] <= word + s
    ensures s != [] && s[0] == c && word + s == (word + [c]) + s[1..]
  {
    assert (word + [c])[|word|] == (word + s)[|word|];
  }

  /** Concatenation of word lists is associative. */
  lemma AppendAssoc(a: seq<string>, b: seq<string>, c: seq<string>)
    ensures (a + b) + c == a + (b + c)
  {
  }

  /** Dropping the first mandated tile keeps the rest ordered. */
  lemma OrderedTail(req: seq<Requirement>)
    requires Ordered(req) && |req| > 0
    ensures Ordered(req[1..])
  {
  }

  /** Every word found from `branch` extends the branch's word, and every
      word found below it extends it strictly. */
  lemma {:induction false} SearchExtendsBranch(tiles: seq<char>, branch: Node, req: seq<Requirement>, pos: int, maxLength: int, w: string)
    requires WellFormed(branch) && (pos == maxLength || Ordered(req))
    requires w in Search(tiles, branch, req, pos, maxLength)
    ensures branch.word <= w
    decreases branch, 2
  {
    if w !in (if branch.valid then [branch.word] else []) {
      ExtensionsExtendBranch(tiles, branch, req, pos, w);
    }
  }

  lemma {:induction false} ExtensionsExtendBranch(tiles: seq<char>, branch: Node, req: seq<Requirement>, pos: int, w: string)
    requires WellFormed(branch) && Ordered(req)
    requires w in Extensions(tiles, branch, req, pos)
    ensures branch.word < w
    decreases branch, 1
  {
    if |req| > 0 && req[0].1 == pos {
      var child := branch.children[req[0].0];
      OrderedTail(req);
      SearchExtendsBranch(tiles, child, req[1..], pos + 1, DefaultMaxLength, w);
    } else {
      FreeStepsExtendBranch(tiles, branch, pos, |tiles|, w);
    }
  }

  lemma {:induction false} FreeStepsExtendBranch(tiles: seq<char>, branch: Node, pos: int, k: nat, w: string)
    requires WellFormed(branch) && k <= |tiles|
    requires w in FreeSteps(tiles, branch, pos, k)
    ensures branch.word < w
    decreases branch, 0, k
  {
    if w in FreeSteps(tiles, branch, pos, k - 1) {
      FreeStepsExtendBranch(tiles, branch, pos, k - 1, w);
    } else {
      var c := tiles[k - 1];
      assert c in branch.children;
      SearchExtendsBranch(Without(tiles, c), branch.children[c], [], pos + 1, DefaultMaxLength, w);
    }
  }

  /** A word found through the first `k` rack tiles is found through one
      of them, at index `j`. */
  lemma {:induction false} FreeStepsWitness(tiles: seq<char>, branch: Node, pos: int, k: nat, w: string) returns (j: nat)
    requires k <= |tiles| && w in FreeSteps(tiles, branch, pos, k)
    ensures j < k && w in StepThrough(tiles, branch, pos, tiles[j])
  {
    if w in FreeSteps(tiles, branch, pos, k - 1) {
      j := FreeStepsWitness(tiles, branch, pos, k - 1, w);
    } else {
      j := k - 1;
    }
  }

  /** Whatever the search finds through rack tile `j` is among the free
      steps through any longer prefix of the rack. */
  lemma {:induction false} FreeStepsInclude(tiles: seq<char>, branch: Node, pos: int, k: nat, j: nat, w: string)
    requires j < k <= |tiles| && w in StepThrough(tiles, branch, pos, tiles[j])
    ensures w in FreeSteps(tiles, branch, pos, k)
  {
    if j < k - 1 {
      FreeStepsInclude(tiles, branch, pos, k - 1, j, w);
    }
  }

  /** The letters below `branch` that the search finds, exactly: a path to a
      VALID node, shorter than the default bound allows, that fits the
      mandated tiles and the rack. */
  lemma {:induction false} SearchExact(tiles: seq<char>, branch: Node, req: seq<Requirement>, pos: int, maxLength: int, s: string)
    requires WellFormed(branch) && (pos == maxLength || Ordered(req))
    requires 0 <= pos < DefaultMaxLength
    ensures branch.word + s in Search(tiles, branch, req, pos, maxLength) <==>
      pos != maxLength && pos + |s| < DefaultMaxLength && IsWordAt(branch, s) && Fits(s, tiles, req, pos)
    decreases branch, 2
  {
    if pos != maxLength {
      var w := branch.word + s;
      if s == [] {
        assert w == branch.word;
        if w in Extensions(tiles, branch, req, pos) {
          ExtensionsExtendBranch(tiles, branch, req, pos, w);
        }
      } else {
        ExtensionsExact(tiles, branch, req, pos, s);
      }
    }
  }

  lemma {:induction false} ExtensionsExact(tiles: seq<char>, branch: Node, req: seq<Requirement>, pos: int, s: string)
    requires WellFormed(branch) && Ordered(req)
    requires 0 <= pos < DefaultMaxLength && s != []
    ensures branch.word + s in Extensions(tiles, branch, req, pos) <==>
      pos + |s| < DefaultMaxLength && IsWordAt(branch, s) && Fits(s, tiles, req, pos)
    decreases branch, 1
  {
    if |req| > 0 && req[0].1 == pos {
      MandatedExact(tiles, branch, req, pos, s);
    } else {
      if branch.word + s in FreeSteps(tiles, branch, pos, |tiles|) {
        FreeSound(tiles, branch, pos, s);
      }
      if pos + |s| < DefaultMaxLength && IsWordAt(branch, s) && multiset(s) <= multiset(tiles) {
        FreeComplete(tiles, branch, pos, s);
      }
    }
  }

  /** A mandated tile due now: only its child is searched, with the rack
      unchanged. */
  lemma {:induction false} MandatedExact(tiles: seq<char>, branch: Node, req: seq<Requirement>, pos: int, s: string)
    requires WellFormed(branch) && Ordered(req) && |req| > 0 && req[0].1 == pos
    requires 0 <= pos < DefaultMaxLength && s != []
    ensures branch.word + s in Extensions(tiles, branch, req, pos) <==>
      pos + |s| < DefaultMaxLength && IsWordAt(branch, s) && Fits(s, tiles, req, pos)
    decreases branch, 0
  {
    var w := branch.word + s;
    var c := req[0].0;
    OrderedTail(req);
    if c in branch.children && pos + 1 < DefaultMaxLength {
      var child := branch.children[c];
      if s[0] == c {
        assert w == child.word + s[1..];
        SearchExact(tiles, child, req[1..], pos + 1, DefaultMaxLength, s[1..]);
      } else if w in Search(tiles, child, req[1..], pos + 1, DefaultMaxLength) {
        SearchExtendsBranch(tiles, child, req[1..], pos + 1, DefaultMaxLength, w);
        ChildPrefix(branch.word, c, s);
      }
    }
  }

  lemma {:induction false} FreeSound(tiles: seq<char>, branch: Node, pos: int, s: string)
    requires WellFormed(branch) && 0 <= pos < DefaultMaxLength && s != []
    requires branch.word + s in FreeSteps(tiles, branch, pos, |tiles|)
    ensures pos + |s| < DefaultMaxLength && IsWordAt(branch, s) && multiset(s) <= multiset(tiles)
    decreases branch, 0
  {
    var w := branch.word + s;
    var j := FreeStepsWitness(tiles, branch, pos, |tiles|, w);
    var d := tiles[j];
    assert d in branch.children;
    var child := branch.children[d];
    var rest := Without(tiles, d);
    SearchExtendsBranch(rest, child, [], pos + 1, DefaultMaxLength, w);
    ChildPrefix(branch.word, d, s);
    SearchExact(rest, child, [], pos + 1, DefaultMaxLength, s[1..]);
    FitsFree(s[1..], rest, pos + 1);
    assert d in tiles;
    WithoutTakesOne(tiles, d);
    assert multiset(s[1..]) <= multiset(tiles) - multiset{d};
    assert s == [d] + s[1..];
    assert multiset(s) == multiset{d} + multiset(s[1..]);
  }

  /** With no mandated tiles, fitting is taking tiles from the rack. */
  lemma FitsFree(s: string, tiles: seq<char>, pos: int)
    ensures Fits(s, tiles, [], pos) <==> multiset(s) <= multiset(tiles)
  {
  }

  /** Spending the first letter of a word the rack covers leaves a rack that
      covers the rest of it. */
  lemma RackCoversRest(tiles: seq<char>, s: string)
    requires s != [] && multiset(s) <= multiset(tiles)
    ensures multiset(s[1..]) <= multiset(Without(tiles, s[0]))
  {
    assert s == [s[0]] + s[1..];
    assert s[0] in multiset(tiles);
    WithoutTakesOne(tiles, s[0]);
  }

  /** A word below `branch` that the rack covers is found through the child
      labelled by its first letter. */
  lemma {:induction false} StepThroughFinds(tiles: seq<char>, branch: Node, pos: int, s: string)
    requires WellFormed(branch) && 0 <= pos && s != []
    requires pos + |s| < DefaultMaxLength && IsWordAt(branch, s) && multiset(s) <= multiset(tiles)
    ensures branch.word + s in StepThrough(tiles, branch, pos, s[0])
    decreases branch, 0, 0
  {
    var d := s[0];
    var child := branch.children[d];
    var rest := Without(tiles, d);
    assert s == [d] + s[1..];
    assert child.word == branch.word + [d];
    assert branch.word + s == child.word + s[1..];
    RackCoversRest(tiles, s);
    FitsFree(s[1..], rest, pos + 1);
    SearchExact(rest, child, [], pos + 1, DefaultMaxLength, s[1..]);
  }

  lemma {:induction false} FreeComplete(tiles: seq<char>, branch: Node, pos: int, s: string)
    requires WellFormed(branch) && 0 <= pos < DefaultMaxLength && s != []
    requires pos + |s| < DefaultMaxLength && IsWordAt(branch, s) && multiset(s) <= multiset(tiles)
    ensures branch.word + s in FreeSteps(tiles, branch, pos, |tiles|)
    decreases branch, 0, 1
  {
    assert s[0] in multiset(s);
    var j :| 0 <= j < |tiles| && tiles[j] == s[0];
    StepThroughFinds(tiles, branch, pos, s);
    FreeStepsInclude(tiles, branch, pos, |tiles|, j, branch.word + s);
  }

  // ---------------------------------------------------------------------
  // Building the tree: `generate_dictionary_tree`
  // ---------------------------------------------------------------------

  /** A dictionary line with every newline character removed. */
  function RemoveNewlines(line: string): (r: string)
    ensures '\n' !in r
    ensures multiset(r) == multiset(line)['\n' := 0]
    ensures '\n' !in line ==> r == line
  {
    if line == [] then []
    else
      assert line == [line[0]] + line[1..];
      (if line[0] == '\n' then [] else [line[0]]) + RemoveNewlines(line[1..])
  }

  /** Removing newlines works piece by piece: the result for `a + b` is the
      result for `a` followed by the result for `b`, so the other characters
      keep their order. */
  lemma {:induction false} RemoveNewlinesConcat(a: string, b: string)
    ensures RemoveNewlines(a + b) == RemoveNewlines(a) + RemoveNewlines(b)
    decreases |a|
  {
    if a == [] {
      assert a + b == b;
    } else {
      assert (a + b)[1..] == a[1..] + b;
      RemoveNewlinesConcat(a[1..], b);
    }
  }

  /** A line as the file yields it, with its line terminator, comes out as
      the word alone. */
  lemma FileLine(w: string)
    requires '\n' !in w
    ensures RemoveNewlines(w + "\n") == w
  {
    RemoveNewlinesConcat(w, "\n");
    assert RemoveNewlines("\n") == [];
  }

  /** A line as the file yields it: a word followed by a single `'\n'`. */
  predicate Terminated(line: string)
  {
    |line| > 0 && line[|line| - 1] == '\n' && '\n' !in line[..|line| - 1]
  }

  /** `FileLine` for every terminated line of a file. */
  lemma FileLines(file: seq<string>)
    ensures forall i :: 0 <= i < |file| && Terminated(file[i]) ==>
      RemoveNewlines(file[i]) == file[i][..|file[i]| - 1]
  {
    forall i | 0 <= i < |file| && Terminated(file[i])
      ensures RemoveNewlines(file[i]) == file[i][..|file[i]| - 1]
    {
      var w := file[i][..|file[i]| - 1];
      assert file[i] == w + "\n";
      FileLine(w);
    }
  }

  /** The dictionary file's lines as the builder reads them: one word per
      line of the file, with no newline left in any of them. A terminated
      line gives the word before its terminator, and a line without a
      newline (the last one of a file not ending in one) gives itself. */
  function DictionaryLines(file: seq<string>): (lines: seq<string>)
    ensures |lines| == |file|
    ensures forall i :: 0 <= i < |file| ==> '\n' !in lines[i]
    ensures forall i :: 0 <= i < |file| && Terminated(file[i]) ==> lines[i] == file[i][..|file[i]| - 1]
    ensures forall i :: 0 <= i < |file| && '\n' !in file[i] ==> lines[i] == file[i]
  {
    FileLines(file);
    seq(|file|, i requires 0 <= i < |file| => RemoveNewlines(file[i]))
  }

  /** One pass of the inner loop: walk down `n` along `w`, creating each
      missing child with its WORD and VALID unset, and mark the node reached
      by the last letter VALID. */
  function Insert(n: Node, w: string): (r: Node)
    ensures r.word == n.word && r.valid == n.valid
    decreases |w|
  {
    if w == [] then n
    else
      var c := w[0];
      var child := if c in n.children then n.children[c] else Node(n.word + [c], false, map[]);
      var child' := if |w| == 1 then child.(valid := true) else Insert(child, w[1..]);
      n.(children := n.children[c := child'])
  }

  /** The tree built from `lines`: rooted at the empty, non-VALID word,
      well formed, VALID exactly at the non-empty lines, and with a node for
      exactly the prefixes of the lines. */
  ghost predicate IsDictionaryTree(root: Node, lines: seq<string>)
  {
    && WellFormed(root)
    && root.word == "" && !root.valid
    && (forall s :: IsWordAt(root, s) <==> s != [] && s in lines)
    && (forall s :: HasPath(root, s) <==> s == [] || exists w :: w in lines && s <= w)
  }

  /** Hanging a well-formed node under the edge that matches its word keeps
      the parent well formed. */
  lemma ReplaceChildWellFormed(n: Node, c: char, child: Node)
    requires WellFormed(n) && WellFormed(child) && child.word == n.word + [c]
    ensures WellFormed(n.(children := n.children[c := child]))
  {
    var n' := n.(children := n.children[c := child]);
    forall d | d in n'.children
      ensures n'.children[d].word == n'.word + [d] && WellFormed(n'.children[d])
    {
      if d != c {
        assert n'.children[d] == n.children[d];
      }
    }
  }

  lemma {:induction false} InsertWellFormed(n: Node, w: string)
    requires WellFormed(n)
    ensures WellFormed(Insert(n, w))
    decreases |w|
  {
    if w != [] {
      var c := w[0];
      var child := if c in n.children then n.children[c] else Node(n.word + [c], false, map[]);
      assert child.word == n.word + [c] && WellFormed(child);
      var child' := if |w| == 1 then child.(valid := true) else Insert(child, w[1..]);
      if |w| > 1 {
        InsertWellFormed(child, w[1..]);
      }
      ReplaceChildWellFormed(n, c, child');
      assert Insert(n, w) == n.(children := n.children[c := child']);
    }
  }

  /** After inserting `w`, the VALID nodes are the old ones and the node of
      `w` itself, unless `w` is empty: no VALID flag is ever cleared. */
  lemma {:induction false} InsertWords(n: Node, w: string, s: string)
    ensures IsWordAt(Insert(n, w), s) <==> IsWordAt(n, s) || (s == w && w != [])
    decreases |w|
  {
    if w != [] && s != [] {
      var c := w[0];
      var child := if c in n.children then n.children[c] else Node(n.word + [c], false, map[]);
      if s[0] == c {
        if c !in n.children {
          FreshNodeHasNoWords(n.word + [c], s[1..]);
        }
        if |w| == 1 {
          if s[1..] != [] {
            assert IsWordAt(child.(valid := true), s[1..]) == IsWordAt(child, s[1..]);
          }
        } else {
          InsertWords(child, w[1..], s[1..]);
          assert s == w <==> s[1..] == w[1..];
        }
      }
    }
  }

  lemma FreshNodeHasNoWords(word: string, s: string)
    ensures !IsWordAt(Node(word, false, map[]), s)
  {
  }

  /** Inserting a word never clears an existing VALID flag. */
  lemma InsertKeepsValid(n: Node, w: string, s: string)
    requires IsWordAt(n, s)
    ensures IsWordAt(Insert(n, w), s)
  {
    InsertWords(n, w, s);
  }

  /** After inserting `w`, the nodes are the old ones and the prefixes of `w`. */
  lemma {:induction false} InsertPaths(n: Node, w: string, s: string)
    ensures HasPath(Insert(n, w), s) <==> HasPath(n, s) || s <= w
    decreases |w|
  {
    if w != [] && s != [] {
      var c := w[0];
      var child := if c in n.children then n.children[c] else Node(n.word + [c], false, map[]);
      if s[0] == c {
        if |w| == 1 {
          assert HasPath(child.(valid := true), s[1..]) == HasPath(child, s[1..]);
          if c !in n.children {
            assert HasPath(child, s[1..]) <==> s[1..] == [];
          }
        } else {
          InsertPaths(child, w[1..], s[1..]);
          if c !in n.children {
            assert HasPath(child, s[1..]) <==> s[1..] == [];
          }
        }
        assert s <= w <==> s[1..] <= w[1..];
      }
    }
  }

  /** Inserting one more line keeps the tree the dictionary tree of the
      lines so far. */
  lemma InsertExtendsDictionary(root: Node, lines: seq<string>, w: string)
    requires IsDictionaryTree(root, lines)
    ensures IsDictionaryTree(Insert(root, w), lines + [w])
  {
    var root' := Insert(root, w);
    InsertWellFormed(root, w);
    forall s ensures IsWordAt(root', s) <==> s != [] && s in lines + [w] {
      InsertWords(root, w, s);
    }
    forall s ensures HasPath(root', s) <==> s == [] || exists v :: v in lines + [w] && s <= v {
      InsertPaths(root, w, s);
      if s <= w {
        assert w in lines + [w];
      }
      if exists v :: v in lines && s <= v {
        var v :| v in lines && s <= v;
        assert v in lines + [w];
      }
    }
  }

  /** One more turn of the building loop: inserting line `k` into the tree
      of the lines before it gives the tree of the lines up to `k`. */
  lemma InsertNextLine(root: Node, lines: seq<string>, k: int)
    requires 0 <= k < |lines| && IsDictionaryTree(root, lines[..k])
    ensures IsDictionaryTree(Insert(root, lines[k]), lines[..k + 1])
  {
    InsertExtendsDictionary(root, lines[..k], lines[k]);
    assert lines[..k + 1] == lines[..k] + [lines[k]];
  }

  lemma EmptyTreeIsDictionaryTree()
    ensures IsDictionaryTree(EmptyTree, [])
  {
    forall s ensures !IsWordAt(EmptyTree, s) {
      FreshNodeHasNoWords("", s);
    }
  }

  // ---------------------------------------------------------------------
  // What the search finds in a dictionary tree
  // ---------------------------------------------------------------------

  /** Every word found from the root of a dictionary tree is a non-empty
      dictionary line, fits the mandated tiles and the rack, and has at most
      14 letters, whatever `maxLength` the entry call was given. */
  lemma FoundWordsAreDictionaryWords(root: Node, lines: seq<string>, tiles: seq<char>, req: seq<Requirement>, maxLength: int, w: string)
    requires IsDictionaryTree(root, lines) && (maxLength == 0 || Ordered(req))
    requires w in Search(tiles, root, req, 0, maxLength)
    ensures w in lines && w != [] && |w| < DefaultMaxLength && Fits(w, tiles, req, 0)
  {
    assert root.word + w == w;
    SearchExact(tiles, root, req, 0, maxLength, w);
  }

  /** Every non-empty dictionary line of at most 14 letters that fits the
      mandated tiles and the rack is found, whatever `maxLength` other than 0
      the entry call was given: the bound is not passed on. */
  lemma DictionaryWordsAreFound(root: Node, lines: seq<string>, tiles: seq<char>, req: seq<Requirement>, maxLength: int, w: string)
    requires IsDictionaryTree(root, lines) && Ordered(req) && maxLength != 0
    requires w in lines && w != [] && |w| < DefaultMaxLength && Fits(w, tiles, req, 0)
    ensures w in Search(tiles, root, req, 0, maxLength)
  {
    assert root.word + w == w;
    SearchExact(tiles, root, req, 0, maxLength, w);
  }

  /** A word of 15 letters, the length of a board line, is never found. */
  lemma FifteenLetterWordsAreNotFound(root: Node, tiles: seq<char>, req: seq<Requirement>, maxLength: int, w: string)
    requires WellFormed(root) && root.word == "" && (maxLength == 0 || Ordered(req))
    requires |w| == DefaultMaxLength
    ensures w !in Search(tiles, root, req, 0, maxLength)
  {
    assert root.word + w == w;
    SearchExact(tiles, root, req, 0, maxLength, w);
  }

  /** With a tile mandated at the first position, every word found starts
      with it. */
  lemma MandatedTileLeads(root: Node, lines: seq<string>, tiles: seq<char>, c: char, rest: seq<Requirement>, maxLength: int, w: string)
    requires IsDictionaryTree(root, lines) && Ordered([(c, 0)] + rest)
    requires w in Search(tiles, root, [(c, 0)] + rest, 0, maxLength)
    ensures w != [] && w[0] == c
  {
    FoundWordsAreDictionaryWords(root, lines, tiles, [(c, 0)] + rest, maxLength, w);
  }

  /** Demands no dictionary word can meet yield nothing: mandated `a` then `b`
      at positions 0 and 1, where `a` alone is no line and no line starts
      with `a` then `b`. */
  lemma ImpossibleDemandFindsNothing(root: Node, lines: seq<string>, tiles: seq<char>, a: char, b: char, maxLength: int)
    requires IsDictionaryTree(root, lines)
    requires [a] !in lines && forall v :: v in lines ==> !([a, b] <= v)
    ensures Search(tiles, root, [(a, 0), (b, 1)], 0, maxLength) == []
  {
    var req := [(a, 0), (b, 1)];
    var found := Search(tiles, root, req, 0, maxLength);
    if found != [] {
      var w := found[0];
      FoundWordsAreDictionaryWords(root, lines, tiles, req, maxLength, w);
      FitsTwoMandates(w, tiles, a, b);
    }
  }

  lemma FitsTwoMandates(w: string, tiles: seq<char>, a: char, b: char)
    requires w != [] && Fits(w, tiles, [(a, 0), (b, 1)], 0)
    ensures w == [a] || [a, b] <= w
  {
    assert w[0] == a && Fits(w[1..], tiles, [(b, 1)], 1);
    if |w| >= 2 {
      assert w[1..][0] == b;
    }
  }

  /** A free step drops the pending mandated tiles: a tile mandated at a
      later position binds nothing, and a rack anagram is found anyway. */
  lemma LaterMandateIsDropped(root: Node, lines: seq<string>, tiles: seq<char>, c: char, p: int, maxLength: int, w: string)
    requires IsDictionaryTree(root, lines) && p != 0 && maxLength != 0
    requires w in lines && w != [] && |w| < DefaultMaxLength && multiset(w) <= multiset(tiles)
    ensures w in Search(tiles, root, [(c, p)], 0, maxLength)
  {
    DictionaryWordsAreFound(root, lines, tiles, [(c, p)], maxLength, w);
  }

  /** Duplicate rack tiles repeat results: with the one-word dictionary
      ["A"] and the rack A, A, the word "A" is found twice. */
  lemma DuplicateTilesRepeatWords()
    ensures Search(['A', 'A'], Insert(EmptyTree, "A"), [], 0, DefaultMaxLength) == ["A", "A"]
  {
    var leaf := Node("A", true, map[]);
    var root := Node("", false, map['A' := leaf]);
    SingleWordTree();
    LeafFindsItself();
    assert Without(['A', 'A'], 'A') == ['A'];
    assert FreeSteps(['A', 'A'], root, 0, 1) == ["A"];
    assert FreeSteps(['A', 'A'], root, 0, 2) == ["A", "A"];
  }

  lemma SingleWordTree()
    ensures Insert(EmptyTree, "A") == Node("", false, map['A' := Node("A", true, map[])])
  {
    assert EmptyTree.word + ['A'] == "A";
  }

  lemma LeafFindsItself()
    ensures Search(['A'], Node("A", true, map[]), [], 1, DefaultMaxLength) == ["A"]
  {
    var leaf := Node("A", true, map[]);
    assert FreeSteps(['A'], leaf, 1, 1) == [];
    assert Extensions(['A'], leaf, [], 1) == [];
  }


  // ---------------------------------------------------------------------
  // The automated player
  // ---------------------------------------------------------------------

  /** An automated player: its rack and the dictionary it searches, both as a
      tree and as a set of lines. */
  class AIPlayer {
    const id: int
    var tiles: seq<char>
    var dictionaryRoot: Node
    var dictionarySet: set<string>
    /** The dictionary lines, newlines removed, in file order. */
    ghost var lines: seq<string>

    ghost predicate Valid()
      reads this
    {
      IsDictionaryTree(dictionaryRoot, lines) && dictionarySet == (set w | w in lines)
    }

    /** A player dealt exactly seven tiles, with its dictionary built from
        the lines of the dictionary file. */
    constructor (id: int, initTiles: seq<char>, dictionaryFile: seq<string>)
      requires |initTiles| == 7
      ensures Valid() && this.id == id && tiles == initTiles
      ensures lines == DictionaryLines(dictionaryFile)
    {
      var root, words := GenerateDictionaryTree(dictionaryFile);
      this.id := id;
      tiles := initTiles;
      lines := DictionaryLines(dictionaryFile);
      dictionaryRoot, dictionarySet := root, words;
    }

    /** Builds the dictionary tree and the set of lines from the dictionary
        file's lines, one line at a time. */
    static method GenerateDictionaryTree(dictionaryFile: seq<string>) returns (root: Node, dictionarySet: set<string>)
      ensures IsDictionaryTree(root, DictionaryLines(dictionaryFile))
      ensures dictionarySet == set w | w in DictionaryLines(dictionaryFile)
    {
      root := EmptyTree;
      var dictionaryLines := DictionaryLines(dictionaryFile);
      EmptyTreeIsDictionaryTree();
      for k := 0 to |dictionaryLines|
        invariant IsDictionaryTree(root, dictionaryLines[..k])
      {
        InsertNextLine(root, dictionaryLines, k);
        root := Insert(root, dictionaryLines[k]);
      }
      assert dictionaryLines[..|dictionaryLines|] == dictionaryLines;
      dictionarySet := set w | w in dictionaryLines;
    }

    /** The anagram search from `branch` at position `pos`, the rack tiles
        tried in rack order. */
    method FindWords(tiles: seq<char>, branch: Node, req: seq<Requirement>, pos: int, maxLength: int)
      returns (validWords: seq<string>)
      requires pos == maxLength || Ordered(req)
      ensures validWords == Search(tiles, branch, req, pos, maxLength)
      decreases branch
    {
      if pos == maxLength {
        return [];
      }
      validWords := if branch.valid then [branch.word] else [];
      ghost var own := validWords;
      if |req| > 0 && req[0].1 == pos {
        if req[0].0 in branch.children {
          OrderedTail(req);
          var found := FindWords(tiles, branch.children[req[0].0], req[1..], pos + 1, DefaultMaxLength);
          validWords := validWords + found;
        }
        assert validWords == own + Extensions(tiles, branch, req, pos);
      } else {
        assert own + FreeSteps(tiles, branch, pos, 0) == own;
        for i := 0 to |tiles|
          invariant validWords == own + FreeSteps(tiles, branch, pos, i)
        {
          var tile := tiles[i];
          ghost var step := FreeSteps(tiles, branch, pos, i);
          if tile in branch.children {
            var found := FindWords(Without(tiles, tile), branch.children[tile], [], pos + 1, DefaultMaxLength);
            assert found == StepThrough(tiles, branch, pos, tile);
            AppendAssoc(own, step, found);
            validWords := validWords + found;
          } else {
            assert StepThrough(tiles, branch, pos, tile) == [];
          }
          assert FreeSteps(tiles, branch, pos, i + 1) == step + StepThrough(tiles, branch, pos, tile);
        }
        assert validWords == own + Extensions(tiles, branch, req, pos);
      }
    }

    /** The search as the player starts it: its own rack, from the root, at
        position 0. Every word found is a non-empty dictionary line of at
        most 14 letters that fits the mandated tiles and the rack. */
    method FindWordsInRack(req: seq<Requirement>, maxLength: int) returns (words: seq<string>)
      requires Valid() && (maxLength == 0 || Ordered(req))
      ensures words == Search(tiles, dictionaryRoot, req, 0, maxLength)
      ensures forall w :: w in words ==> w in lines && w != [] && |w| < DefaultMaxLength && Fits(w, tiles, req, 0)
    {
      words := FindWords(tiles, dictionaryRoot, req, 0, maxLength);
      forall w | w in words
        ensures w in lines && w != [] && |w| < DefaultMaxLength && Fits(w, tiles, req, 0)
      {
        FoundWordsAreDictionaryWords(dictionaryRoot, lines, tiles, req, maxLength, w);
      }
    }

    /** Whether `word` is a line of the dictionary; for a non-empty word,
        exactly when the tree marks it VALID. */
    function TestWord(word: string): (b: bool)
      reads this
      requires Valid()
      ensures b <==> word in lines
      ensures word != [] ==> (b <==> IsWordAt(dictionaryRoot, word))
    {
      word in dictionarySet
    }
  }
}
