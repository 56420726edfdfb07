/** The code half of the Huffman coder of CS232_Proj4: the code table read
    off a Huffman tree, the tree rebuilt from a code table, and the encoding
    and decoding of text. Files become sequences: a code table is a
    sequence of letter/code entries, encoded data a sequence of '0' and
    '1' characters, and decoded output a sequence of letters. */
module HuffmanCode {
  import opened Wrappers
  import opened HuffmanTable

  /** One line of the Huffman table: a letter and its code. */
  datatype Entry = Entry(letter: char, code: seq<char>)

  /** A code made of '0' and '1' only. */
  predicate Bits(c: seq<char>)
  {
    forall i :: 0 <= i < |c| ==> c[i] == '0' || c[i] == '1'
  }

  /** One step down: '0' follows the 0 (left) link, anything else the 1
      (right) link. */
  function Step(n: Info, bit: char): Info
  {
    if n.Null? then Null else if bit == '0' then n.lLink else n.rLink
  }

  /** The node reached from n along a code, or Null if the walk leaves the
      tree. */
  function Walk(n: Info, code: seq<char>): Info
  {
    if code == [] then n else Walk(Step(n, code[0]), code[1..])
  }

  lemma {:induction false} WalkAppend(n: Info, p: seq<char>, q: seq<char>)
    ensures Walk(n, p + q) == Walk(Walk(n, p), q)
    decreases |p|
  {
    if p == [] {
      assert p + q == q;
    } else {
      assert (p + q)[0] == p[0] && (p + q)[1..] == p[1..] + q;
      WalkAppend(Step(n, p[0]), p[1..], q);
    }
  }

  lemma WalkSnoc(n: Info, p: seq<char>, bit: char)
    ensures Walk(n, p + [bit]) == Step(Walk(n, p), bit)
  {
    WalkAppend(n, p, [bit]);
    assert [bit][1..] == [];
  }

  lemma {:induction false} WalkNull(code: seq<char>)
    ensures Walk(Null, code) == Null
    decreases |code|
  {
    if code != [] {
      WalkNull(code[1..]);
    }
  }

  // ---------------------------------------------------------------------
  // recGenHuffTable / genHuffTable
  // ---------------------------------------------------------------------

  /** recGenHuffTable: a letter node emits its letter with the path so far;
      then the 0 subtree is visited with '0' appended, and the 1 subtree
      with '1' appended. */
  function RecGen(n: Info, code: seq<char>): seq<Entry>
    requires n.Node?
  {
    (if IsAlpha(n.letter) then [Entry(n.letter, code)] else [])
    + (if n.lLink.Node? then RecGen(n.lLink, code + ['0']) else [])
    + (if n.rLink.Node? then RecGen(n.rLink, code + ['1']) else [])
  }

  /** genHuffTable: the table of the whole tree, starting from the empty
      code. */
  function GenHuffTable(root: Info): seq<Entry>
    requires root.Node?
  {
    RecGen(root, [])
  }

  /** The number of alphabetic nodes of a tree. */
  function AlphaCount(n: Info): nat
  {
    match n
    case Null => 0
    case Node(c, _, l, r) => (if IsAlpha(c) then 1 else 0) + AlphaCount(l) + AlphaCount(r)
  }

  /** The number of leaves of a tree. */
  function LeafCount(n: Info): nat
  {
    match n
    case Null => 0
    case Node(_, _, l, r) => if l == Null && r == Null then 1 else LeafCount(l) + LeafCount(r)
  }

  /** The count genHuffTable reports is the number of letter nodes, which
      in a Huffman tree are exactly its leaves. */
  lemma {:induction false} GenCount(n: Info, code: seq<char>)
    requires n.Node?
    ensures |RecGen(n, code)| == AlphaCount(n)
    ensures Full(n) ==> AlphaCount(n) == LeafCount(n)
  {
    if n.lLink.Node? {
      GenCount(n.lLink, code + ['0']);
    }
    if n.rLink.Node? {
      GenCount(n.rLink, code + ['1']);
    }
  }

  /** The letters of a table. */
  function EntryLetters(es: seq<Entry>): set<char>
  {
    set e | e in es :: e.letter
  }

  /** Where an entry of the table comes from: the node itself, or the
      table of its 0 or 1 subtree. */
  lemma GenSplit(n: Info, code: seq<char>)
    requires n.Node?
    ensures forall e :: e in RecGen(n, code) <==>
      (IsAlpha(n.letter) && e == Entry(n.letter, code))
      || (n.lLink.Node? && e in RecGen(n.lLink, code + ['0']))
      || (n.rLink.Node? && e in RecGen(n.rLink, code + ['1']))
  {
  }

  /** Each entry of the table: its code extends the starting code (by at
      least one bit below a node without a letter), is made of bits when
      that is, and leads from the subtree's root to a node holding the
      entry's letter. */
  lemma {:induction false} GenEntry(n: Info, code: seq<char>, e: Entry)
    requires n.Node? && e in RecGen(n, code)
    ensures code <= e.code
    ensures Bits(code) ==> Bits(e.code)
    ensures !IsAlpha(n.letter) ==> |e.code| > |code|
    ensures Walk(n, e.code[|code|..]).Node? && Walk(n, e.code[|code|..]).letter == e.letter
    ensures IsAlpha(e.letter)
    decreases n, 1
  {
    GenSplit(n, code);
    if IsAlpha(n.letter) && e == Entry(n.letter, code) {
      assert e.code[|code|..] == [];
    } else if n.lLink.Node? && e in RecGen(n.lLink, code + ['0']) {
      GenChild(n, code, e, '0', n.lLink);
    } else {
      GenChild(n, code, e, '1', n.rLink);
    }
  }

  /** The step of GenEntry for an entry of a subtree's table. */
  lemma {:induction false} GenChild(n: Info, code: seq<char>, e: Entry, bit: char, child: Info)
    requires n.Node? && (bit == '0' || bit == '1')
    requires child == (if bit == '0' then n.lLink else n.rLink)
    requires child.Node? && e in RecGen(child, code + [bit])
    ensures code <= e.code && |e.code| > |code|
    ensures Bits(code) ==> Bits(e.code)
    ensures Walk(n, e.code[|code|..]).Node? && Walk(n, e.code[|code|..]).letter == e.letter
    ensures IsAlpha(e.letter)
    decreases n, 0
  {
    var c := code + [bit];
    GenEntry(child, c, e);
    assert c[..|code|] == code && c[|code|] == bit;
    assert e.code[..|code|] == c[..|code|];
    if Bits(code) {
      assert Bits(c);
    }
    assert e.code[|code|..][0] == bit;
    assert e.code[|code|..][1..] == e.code[|c|..];
  }

  /** The letters of the table are the letters of the tree. */
  lemma {:induction false} GenLetters(n: Info, code: seq<char>)
    requires n.Node?
    ensures EntryLetters(RecGen(n, code)) == AlphaLetters(n)
  {
    GenSplit(n, code);
    if n.lLink.Node? {
      GenLetters(n.lLink, code + ['0']);
    }
    if n.rLink.Node? {
      GenLetters(n.rLink, code + ['1']);
    }
  }

  /** No code of the table is a prefix of another (nor equal to it). */
  predicate PrefixFree(es: seq<Entry>)
  {
    forall i, j :: 0 <= i < |es| && 0 <= j < |es| && i != j ==> !(es[i].code <= es[j].code)
  }

  /** Two prefix-free tables whose codes part after a common stem, one
      with a '0' and one with a '1', form a prefix-free table together. */
  lemma PrefixFreeJoin(a: seq<Entry>, b: seq<Entry>, stem: seq<char>)
    requires PrefixFree(a) && PrefixFree(b)
    requires forall e :: e in a ==> stem + ['0'] <= e.code
    requires forall e :: e in b ==> stem + ['1'] <= e.code
    ensures PrefixFree(a + b)
  {
    var s := a + b;
    forall i, j | 0 <= i < |s| && 0 <= j < |s| && i != j
      ensures !(s[i].code <= s[j].code)
    {
      if i < |a| && j >= |a| {
        assert s[i] in a && s[j] in b;
        assert (stem + ['0'])[|stem|] == '0' && (stem + ['1'])[|stem|] == '1';
        assert s[i].code[|stem|] == '0' && s[j].code[|stem|] == '1';
      } else if i >= |a| && j < |a| {
        assert s[i] in b && s[j] in a;
        assert (stem + ['0'])[|stem|] == '0' && (stem + ['1'])[|stem|] == '1';
        assert s[i].code[|stem|] == '1' && s[j].code[|stem|] == '0';
      } else if i >= |a| {
        assert s[i] == b[i - |a|] && s[j] == b[j - |a|];
      }
    }
  }

  /** The table of a Huffman tree is prefix free. */
  lemma {:induction false} GenPrefixFree(n: Info, code: seq<char>)
    requires Full(n) && Bits(code)
    ensures PrefixFree(RecGen(n, code))
  {
    if n.lLink != Null {
      var a := RecGen(n.lLink, code + ['0']);
      var b := RecGen(n.rLink, code + ['1']);
      GenPrefixFree(n.lLink, code + ['0']);
      GenPrefixFree(n.rLink, code + ['1']);
      forall e | e in a
        ensures code + ['0'] <= e.code
      {
        GenEntry(n.lLink, code + ['0'], e);
      }
      forall e | e in b
        ensures code + ['1'] <= e.code
      {
        GenEntry(n.rLink, code + ['1'], e);
      }
      assert !IsAlpha(n.letter);
      assert RecGen(n, code) == a + b;
      PrefixFreeJoin(a, b, code);
    }
  }

  /** genHuffTable of a Huffman tree with at least two letters: prefix-free
      non-empty bit codes, each leading from the root to its letter, one
      entry per leaf, and the letters of the tree. */
  lemma GenHuffTableFacts(root: Info)
    requires Full(root) && root.lLink != Null
    ensures var es := GenHuffTable(root);
      && PrefixFree(es)
      && |es| == LeafCount(root)
      && EntryLetters(es) == AlphaLetters(root)
      && forall e :: e in es ==>
           Bits(e.code) && |e.code| > 0
           && Walk(root, e.code).Node? && Walk(root, e.code).letter == e.letter
  {
    assert Bits([]);
    GenLetters(root, []);
    GenPrefixFree(root, []);
    GenCount(root, []);
    forall e | e in GenHuffTable(root)
      ensures Bits(e.code) && |e.code| > 0
      ensures Walk(root, e.code).Node? && Walk(root, e.code).letter == e.letter
    {
      GenEntry(root, [], e);
      assert e.code[0..] == e.code;
    }
  }

  // ---------------------------------------------------------------------
  // insertLetterNode / HuffTree_from_HuffTable
  // ---------------------------------------------------------------------

  /** A fresh '*' node, as info() builds it. */
  function StarNode(): Info
  {
    Node(Star, 0, Null, Null)
  }

  /** insertLetterNode: follow the code, creating '*' nodes for missing
      links, and put a fresh node for the letter at the end of the path
      (replacing whatever was there). The source dereferences the node
      whenever code is left, so it is never Null then. */
  function InsertLetter(code: seq<char>, letter: char, n: Info): (r: Info)
    requires n.Node? || code == []
    ensures r.Node?
    decreases |code|
  {
    if code == [] then Node(letter, 0, Null, Null)
    else if code[0] == '0' then
      var child := if n.lLink == Null then StarNode() else n.lLink;
      n.(lLink := InsertLetter(code[1..], letter, child))
    else
      var child := if n.rLink == Null then StarNode() else n.rLink;
      n.(rLink := InsertLetter(code[1..], letter, child))
  }

  /** Two codes part ways: at the first difference they hold different
      characters. */
  predicate Diverge(q: seq<char>, c: seq<char>)
    decreases |q|
  {
    |q| > 0 && |c| > 0 && (q[0] != c[0] || Diverge(q[1..], c[1..]))
  }

  /** Of two bit codes, one is a prefix of the other or they part ways. */
  lemma {:induction false} Trichotomy(q: seq<char>, c: seq<char>)
    ensures q <= c || c < q || Diverge(q, c)
    decreases |q|
  {
    if |q| > 0 && |c| > 0 && q[0] == c[0] {
      Trichotomy(q[1..], c[1..]);
      assert q == [q[0]] + q[1..] && c == [c[0]] + c[1..];
    }
  }

  /** The walk to the inserted letter ends at its new node. */
  lemma {:induction false} InsertLetterEnd(code: seq<char>, letter: char, n: Info)
    requires n.Node? || code == []
    ensures Walk(InsertLetter(code, letter, n), code) == Node(letter, 0, Null, Null)
    decreases |code|
  {
    if code != [] {
      var child := if code[0] == '0' then (if n.lLink == Null then StarNode() else n.lLink)
                   else (if n.rLink == Null then StarNode() else n.rLink);
      InsertLetterEnd(code[1..], letter, child);
    }
  }

  /** Along the way, existing nodes keep their letters and missing ones
      appear as '*' nodes. */
  lemma {:induction false} InsertLetterPath(code: seq<char>, letter: char, n: Info, q: seq<char>)
    requires n.Node? && q < code
    ensures Walk(InsertLetter(code, letter, n), q).Node?
    ensures Walk(InsertLetter(code, letter, n), q).letter
            == (if Walk(n, q).Node? then Walk(n, q).letter else Star)
    decreases |code|
  {
    if q != [] {
      assert q[0] == code[0] && q[1..] < code[1..];
      var prev := if code[0] == '0' then n.lLink else n.rLink;
      var child := if prev == Null then StarNode() else prev;
      InsertLetterPath(code[1..], letter, child, q[1..]);
      if prev == Null {
        WalkNull(q[1..]);
        if q[1..] != [] {
          assert Walk(child, q[1..]) == Walk(Null, q[2..]) by {
            assert Step(child, q[1..][0]) == Null;
          }
          WalkNull(q[2..]);
        }
      }
    }
  }

  /** Off the path nothing changes. */
  lemma {:induction false} InsertLetterAside(code: seq<char>, letter: char, n: Info, q: seq<char>)
    requires n.Node? && Bits(code) && Bits(q) && Diverge(q, code)
    ensures Walk(InsertLetter(code, letter, n), q) == Walk(n, q)
    decreases |code|
  {
    var prev := if code[0] == '0' then n.lLink else n.rLink;
    var child := if prev == Null then StarNode() else prev;
    if q[0] == code[0] {
      InsertLetterAside(code[1..], letter, child, q[1..]);
      if prev == Null {
        assert Diverge(q[1..], code[1..]);
        assert Walk(child, q[1..]) == Walk(Step(child, q[1]), q[2..]);
        WalkNull(q[2..]);
        WalkNull(q[1..]);
      }
    }
  }

  /** Below the new letter node there is nothing. */
  lemma InsertLetterBelow(code: seq<char>, letter: char, n: Info, q: seq<char>)
    requires n.Node? || code == []
    requires code < q
    ensures Walk(InsertLetter(code, letter, n), q) == Null
  {
    var r := InsertLetter(code, letter, n);
    assert q == code + q[|code|..];
    WalkAppend(r, code, q[|code|..]);
    InsertLetterEnd(code, letter, n);
    assert q[|code|..] == [q[|code|]] + q[|code| + 1..];
    WalkNull(q[|code| + 1..]);
  }

  /** The entry can be decoded in tree R: its code walks through '*' nodes
      to a node holding its letter. */
  predicate CodeOK(R: Info, e: Entry)
  {
    && Walk(R, e.code).Node? && Walk(R, e.code).letter == e.letter
    && forall k :: 0 <= k < |e.code| ==> Walk(R, e.code[..k]).Node? && Walk(R, e.code[..k]).letter == Star
  }

  /** The codes of a table. */
  function Codes(es: seq<Entry>): set<seq<char>>
  {
    set e | e in es :: e.code
  }

  /** What the rebuilt tree keeps true of the entries inserted so far: each
      decodes, and any node not marked '*' sits at the end of one of their
      codes. */
  ghost predicate Rebuilt(R: Info, es: seq<Entry>)
  {
    && R.Node?
    && (forall e :: e in es ==> CodeOK(R, e))
    && forall q :: Bits(q) && Walk(R, q).Node? && Walk(R, q).letter != Star ==> q in Codes(es)
  }

  /** A code that is neither a prefix of nor prefixed by any code so far. */
  predicate Fresh(es: seq<Entry>, c: seq<char>)
  {
    forall e :: e in es ==> !(e.code <= c) && !(c <= e.code)
  }

  /** Inserting a fresh non-empty bit code keeps the rebuilt tree decoding
      every entry, the new one included. */
  lemma InsertKeepsRebuilt(R: Info, es: seq<Entry>, x: Entry)
    requires Rebuilt(R, es) && Bits(x.code) && |x.code| > 0 && x.letter != Star
    requires forall e :: e in es ==> Bits(e.code)
    requires Fresh(es, x.code)
    ensures Rebuilt(InsertLetter(x.code, x.letter, R), es + [x])
  {
    var R' := InsertLetter(x.code, x.letter, R);
    var es' := es + [x];
    InsertLetterEnd(x.code, x.letter, R);
    forall k | 0 <= k < |x.code|
      ensures Walk(R', x.code[..k]).Node? && Walk(R', x.code[..k]).letter == Star
    {
      var q := x.code[..k];
      InsertLetterPath(x.code, x.letter, R, q);
    }
    assert CodeOK(R', x);
    forall e | e in es
      ensures CodeOK(R', e)
    {
      OldEntryKept(R, x, e);
    }
    forall q | Bits(q) && Walk(R', q).Node? && Walk(R', q).letter != Star
      ensures q in Codes(es')
    {
      Trichotomy(q, x.code);
      if q == x.code {
        assert x in es';
      } else if q < x.code {
        InsertLetterPath(x.code, x.letter, R, q);
        assert q in Codes(es);
      } else if x.code < q {
        InsertLetterBelow(x.code, x.letter, R, q);
      } else {
        InsertLetterAside(x.code, x.letter, R, q);
        assert q in Codes(es);
      }
      assert Codes(es) <= Codes(es');
    }
  }

  /** A node off the inserted code, or on it above the new letter, keeps
      its letter. */
  lemma WalkKept(R: Info, x: Entry, q: seq<char>)
    requires R.Node? && Walk(R, q).Node? && Bits(q) && Bits(x.code) && !(x.code <= q)
    ensures Walk(InsertLetter(x.code, x.letter, R), q).Node?
    ensures Walk(InsertLetter(x.code, x.letter, R), q).letter == Walk(R, q).letter
  {
    Trichotomy(q, x.code);
    if q <= x.code {
      InsertLetterPath(x.code, x.letter, R, q);
    } else {
      InsertLetterAside(x.code, x.letter, R, q);
    }
  }

  /** An entry inserted earlier still decodes after a fresh insertion. */
  lemma OldEntryKept(R: Info, x: Entry, e: Entry)
    requires R.Node? && CodeOK(R, e) && Bits(e.code) && Bits(x.code)
    requires !(x.code <= e.code)
    ensures CodeOK(InsertLetter(x.code, x.letter, R), e)
  {
    forall k | 0 <= k < |e.code|
      ensures Walk(InsertLetter(x.code, x.letter, R), e.code[..k]).Node?
      ensures Walk(InsertLetter(x.code, x.letter, R), e.code[..k]).letter == Star
    {
      WalkKept(R, x, e.code[..k]);
    }
    WalkKept(R, x, e.code);
  }

  /** HuffTree_from_HuffTable: start from a '*' root and insert the table's
      entries in order. */
  function RebuildFrom(R: Info, es: seq<Entry>): (r: Info)
    requires R.Node?
    ensures r.Node?
    decreases |es|
  {
    if es == [] then R else RebuildFrom(InsertLetter(es[0].code, es[0].letter, R), es[1..])
  }

  function HuffTreeFromHuffTable(es: seq<Entry>): (r: Info)
    ensures r.Node?
  {
    RebuildFrom(StarNode(), es)
  }

  /** The fresh root decodes the empty table. */
  lemma StarNodeRebuilt()
    ensures Rebuilt(StarNode(), [])
  {
    forall q | Bits(q) && Walk(StarNode(), q).Node? && Walk(StarNode(), q).letter != Star
      ensures false
    {
      if q != [] {
        WalkNull(q[1..]);
      }
    }
  }

  /** Rebuilding from a prefix-free table of non-empty bit codes, with
      letters other than '*', gives a tree in which every entry decodes. */
  lemma {:induction false} RebuildDecodes(R: Info, done: seq<Entry>, es: seq<Entry>)
    requires Rebuilt(R, done)
    requires PrefixFree(done + es)
    requires forall e :: e in done + es ==> Bits(e.code) && |e.code| > 0 && e.letter != Star
    ensures forall e :: e in done + es ==> CodeOK(RebuildFrom(R, es), e)
    decreases |es|
  {
    if es == [] {
      assert done + es == done;
    } else {
      var x := es[0];
      var all := done + es;
      assert all[|done|] == x;
      forall e | e in done
        ensures !(e.code <= x.code) && !(x.code <= e.code)
      {
        var i :| 0 <= i < |done| && done[i] == e;
        assert all[i] == e;
      }
      InsertKeepsRebuilt(R, done, x);
      assert (done + [x]) + es[1..] == all;
      RebuildDecodes(InsertLetter(x.code, x.letter, R), done + [x], es[1..]);
    }
  }

  // ---------------------------------------------------------------------
  // encodeData / decodeData
  // ---------------------------------------------------------------------

  /** The first entry of the table with the given letter, or |es|. */
  function FindEntry(es: seq<Entry>, letter: char): (i: nat)
    ensures i <= |es|
    ensures i < |es| ==> es[i].letter == letter
    ensures i == |es| ==> letter !in EntryLetters(es)
  {
    if es == [] then 0
    else if es[0].letter == letter then 0
    else
      var k := FindEntry(es[1..], letter);
      assert forall e :: e in es ==> e == es[0] || e in es[1..];
      1 + k
  }

  /** The code encodeData writes for one letter: that of the first table
      line whose key is the letter upper-cased, or nothing when no line
      has it. */
  function CodeOf(es: seq<Entry>, c: char): seq<char>
  {
    var i := FindEntry(es, ToUpper(c));
    if i < |es| then es[i].code else []
  }

  /** encodeData: the codes of the text's letters, one after another. */
  function EncodeData(es: seq<Entry>, text: seq<char>): seq<char>
  {
    if text == [] then [] else CodeOf(es, text[0]) + EncodeData(es, text[1..])
  }

  /** decodeData: walk from the current node by each bit; a node whose
      letter is not '*' is output, and the walk restarts at the root. The
      source follows a null link into a crash; that is None here. Bits left
      over at the end produce nothing. */
  function Decode(root: Info, cur: Info, bits: seq<char>): Option<seq<char>>
    requires root.Node? && cur.Node?
    decreases |bits|
  {
    if bits == [] then Some([])
    else
      var next := Step(cur, bits[0]);
      if next == Null then None
      else if next.letter != Star then
        match Decode(root, root, bits[1..])
        case None => None
        case Some(rest) => Some([next.letter] + rest)
      else Decode(root, next, bits[1..])
  }

  /** Decoding an entry's code, from any point along it, outputs its
      letter and goes on with the rest at the root. */
  lemma {:induction false} DecodeOneCode(R: Info, e: Entry, k: nat, rest: seq<char>)
    requires R.Node? && CodeOK(R, e) && e.letter != Star && k < |e.code|
    ensures Walk(R, e.code[..k]).Node?
    ensures Decode(R, Walk(R, e.code[..k]), e.code[k..] + rest)
            == match Decode(R, R, rest)
               case None => None
               case Some(out) => Some([e.letter] + out)
    decreases |e.code| - k
  {
    var cur := Walk(R, e.code[..k]);
    var bits := e.code[k..] + rest;
    assert bits[0] == e.code[k] && bits[1..] == e.code[k + 1..] + rest;
    WalkSnoc(R, e.code[..k], e.code[k]);
    assert e.code[..k] + [e.code[k]] == e.code[..k + 1];
    if k + 1 == |e.code| {
      assert e.code[..k + 1] == e.code;
      assert e.code[k + 1..] + rest == rest;
    } else {
      DecodeOneCode(R, e, k + 1, rest);
    }
  }

  /** In a tree where every entry decodes, the encoding of a text whose
      upper-cased letters all have entries decodes to the text upper-cased. */
  lemma {:induction false} DecodeEncoded(R: Info, es: seq<Entry>, text: seq<char>)
    requires R.Node?
    requires forall e :: e in es ==> CodeOK(R, e) && |e.code| > 0 && e.letter != Star
    requires forall i :: 0 <= i < |text| ==> ToUpper(text[i]) in EntryLetters(es)
    ensures Decode(R, R, EncodeData(es, text)) == Some(UpperAll(text))
  {
    if text != [] {
      var i := FindEntry(es, ToUpper(text[0]));
      var e := es[i];
      DecodeEncoded(R, es, text[1..]);
      DecodeOneCode(R, e, 0, EncodeData(es, text[1..]));
      assert e.code[..0] == [] && e.code[0..] == e.code;
      assert UpperAll(text) == [ToUpper(text[0])] + UpperAll(text[1..]);
    }
  }

  /** The text with every letter upper-cased. */
  function UpperAll(text: seq<char>): (r: seq<char>)
    ensures |r| == |text| && forall i :: 0 <= i < |text| ==> r[i] == ToUpper(text[i])
  {
    if text == [] then [] else [ToUpper(text[0])] + UpperAll(text[1..])
  }

  // ---------------------------------------------------------------------
  // The whole pipeline
  // ---------------------------------------------------------------------

  /** The set of entry letters of a table of letter leaves. */
  function LeafLetters(t: seq<Info>): set<char>
    requires AllNodes(t)
  {
    set e | e in t :: e.letter
  }

  lemma TableLettersOfLeaves(t: seq<Info>)
    requires AllNodes(t) && forall i :: 0 <= i < |t| ==> LetterLeaf(t[i])
    ensures TableLetters(t) == LeafLetters(t)
  {
    forall e | e in t
      ensures AlphaLetters(e) == {e.letter}
    {
      var i :| 0 <= i < |t| && t[i] == e;
      assert LetterLeaf(e);
    }
  }

  /** The upper-cased letters of a text. */
  function UpperLetters(s: seq<char>): set<char>
  {
    set i | 0 <= i < |s| && IsAlpha(s[i]) :: ToUpper(s[i])
  }

  lemma AddOrIncreaseLetters(t: seq<Info>, u: char)
    requires AllNodes(t)
    ensures LeafLetters(AddOrIncrease(t, u)) == LeafLetters(t) + {u}
  {
    var r := AddOrIncrease(t, u);
    var i := Find(t, u);
    if i < |t| {
      forall e | e in r
        ensures e.letter in LeafLetters(t)
      {
        var j :| 0 <= j < |r| && r[j] == e;
        assert t[j] in t;
      }
      assert t[i] in t;
    } else {
      assert forall e :: e in r <==> e in t || e == Leaf(u, 1);
    }
  }

  lemma {:induction false} CountsLetters(s: seq<char>)
    ensures LeafLetters(Counts(s)) == UpperLetters(s)
  {
    if s != [] {
      var p := s[..|s| - 1];
      var c := s[|s| - 1];
      CountsLetters(p);
      assert forall i :: 0 <= i < |p| ==> s[i] == p[i];
      if IsAlpha(c) {
        AddOrIncreaseLetters(Counts(p), ToUpper(c));
        assert UpperLetters(s) == UpperLetters(p) + {ToUpper(c)};
      } else {
        assert UpperLetters(s) == UpperLetters(p);
      }
    }
  }

  /** The letters of a text are its alphabetic characters, in order. */
  lemma {:induction false} LettersAreAlpha(s: seq<char>)
    ensures forall i :: 0 <= i < |Letters(s)| ==> Letters(s)[i] in s
  {
    if s != [] {
      LettersAreAlpha(s[1..]);
      var head := if IsAlpha(s[0]) then [s[0]] else [];
      assert Letters(s) == head + Letters(s[1..]);
      forall i | 0 <= i < |Letters(s)|
        ensures Letters(s)[i] in s
      {
        if i >= |head| {
          assert Letters(s)[i] == Letters(s[1..])[i - |head|];
          assert Letters(s[1..])[i - |head|] in s[1..];
        }
      }
    }
  }

  /** A table of two or more entries merges into a '*' root with two
      children. */
  lemma {:induction false} HuffRootIsMerged(t: seq<Info>)
    requires |t| >= 2 && AllNodes(t)
    ensures HuffTreeFromFreqTable(t).letter == Star
    ensures HuffTreeFromFreqTable(t).lLink != Null
    decreases |t|
  {
    var m := MergeStep(t);
    if |t| == 2 {
      assert t[2..] == [];
      assert m[0] in multiset(m);
      assert m[0] == Merged(t);
      assert t[0].Node?;
    } else {
      HuffRootIsMerged(m);
    }
  }

  /** The Huffman tree of a text with at least two distinct letters: a
      Huffman tree with a '*' root whose letters are the text's letters
      upper-cased. */
  lemma FreqTree(text: seq<char>)
    requires |BuildFreqTable(text).0| >= 2
    ensures var root := HuffTreeFromFreqTable(BuildFreqTable(text).0);
      && Full(root) && root.lLink != Null
      && AlphaLetters(root) == UpperLetters(UntilStar(text))
  {
    var freq := BuildFreqTable(text).0;
    FreqTableFacts(text);
    forall i | 0 <= i < |freq|
      ensures Full(freq[i])
    {
      LetterLeafFull(freq[i]);
    }
    HuffTreeFacts(freq);
    HuffRootIsMerged(freq);
    FreqLetters(text);
  }

  /** The letters of the frequency table are the text's letters,
      upper-cased. */
  lemma FreqLetters(text: seq<char>)
    ensures TableLetters(BuildFreqTable(text).0) == UpperLetters(UntilStar(text))
  {
    var freq := BuildFreqTable(text).0;
    var s := UntilStar(text);
    FreqTableFacts(text);
    TableLettersOfLeaves(freq);
    CountsLetters(s);
    CountsFacts(s);
    forall e
      ensures e in freq <==> e in Counts(s)
    {
      assert e in freq <==> e in multiset(freq);
    }
    assert LeafLetters(freq) == LeafLetters(Counts(s));
  }

  /** Every letter of the text read has an upper-cased form among the
      text's letters. */
  lemma DataLetters(text: seq<char>)
    ensures var data := BuildFreqTable(text).1;
      forall i :: 0 <= i < |data| ==> ToUpper(data[i]) in UpperLetters(UntilStar(text))
  {
    var data := BuildFreqTable(text).1;
    var s := UntilStar(text);
    FreqTableFacts(text);
    LettersAreAlpha(s);
    forall i | 0 <= i < |data|
      ensures ToUpper(data[i]) in UpperLetters(s)
    {
      assert data[i] in s;
      var k :| 0 <= k < |s| && s[k] == data[i];
      assert IsAlpha(s[k]);
    }
  }

  /** Rebuilding from the table of a Huffman tree with at least two letters
      gives a tree in which every entry's code decodes to its letter. */
  lemma TableDecodes(root: Info)
    requires Full(root) && root.lLink != Null
    ensures var table := GenHuffTable(root);
      forall e :: e in table ==>
        CodeOK(HuffTreeFromHuffTable(table), e) && |e.code| > 0 && e.letter != Star
  {
    var table := GenHuffTable(root);
    GenHuffTableFacts(root);
    forall e | e in table
      ensures e.letter != Star
    {
      GenEntry(root, [], e);
    }
    StarNodeRebuilt();
    assert [] + table == table;
    RebuildDecodes(StarNode(), [], table);
  }

  /** Round trip: build the frequency table of a text with at least two
      distinct letters, merge it into a Huffman tree, write the code table,
      rebuild a tree from that table, encode the text's letters with the
      table and decode them with the rebuilt tree: the output is the text's
      letters upper-cased. */
  lemma RoundTrip(text: seq<char>)
    requires |BuildFreqTable(text).0| >= 2
    ensures var (freq, data) := BuildFreqTable(text);
      var table := GenHuffTable(HuffTreeFromFreqTable(freq));
      var rebuilt := HuffTreeFromHuffTable(table);
      Decode(rebuilt, rebuilt, EncodeData(table, data)) == Some(UpperAll(data))
  {
    var (freq, data) := BuildFreqTable(text);
    var root := HuffTreeFromFreqTable(freq);
    FreqTree(text);
    DataLetters(text);
    GenHuffTableFacts(root);
    TableDecodes(root);
    var table := GenHuffTable(root);
    DecodeEncoded(HuffTreeFromHuffTable(table), table, data);
  }
}
