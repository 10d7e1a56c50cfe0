/** The queue instructions of the NEC V55 (src/cpu/x86.c). A queue is a list of
  16-bit links kept in guest memory: a header holds the first and the last link,
  and link `l` owns a cell at `16 * l + field` with a forward and a backward
  word. The instructions refine operations on the sequence of links. */
module V55Queue {
  import opened ByteMemory

  function Header(table: seq<word>): nat
    requires |table| == 4
  {
    table[1] as int * 0x10 + table[0] as int
  }

  function Cell(link: word, field: word): nat {
    link as int * 0x10 + field as int
  }

  function Forward(m: Memory, field: word, link: word): word {
    Word(m, Cell(link, field))
  }

  function Backward(m: Memory, field: word, link: word): word {
    Word(m, Cell(link, field) + 2)
  }

  /** The four bytes at `a` and the four bytes at `b` do not overlap. */
  predicate Apart(a: nat, b: nat) {
    a + 4 <= b || b + 4 <= a
  }

  ghost predicate Distinct(links: seq<word>) {
    forall i, j :: 0 <= i < j < |links| ==> links[i] != links[j]
  }

  /** What the queue instructions see of the memory: the two header words and the
    forward and backward word of every link. */
  datatype View = View(head: word, tail: word, forward: word -> word, backward: word -> word)

  function ViewOf(m: Memory, header: nat, field: word): View {
    View(Word(m, header), Word(m, header + 2), (l: word) => Forward(m, field, l), (l: word) => Backward(m, field, l))
  }

  /** A view of exactly this queue: the header and all forward links. */
  ghost predicate Shows(v: View, links: seq<word>) {
    && v.head == (if links == [] then 0 else links[0])
    && (links != [] ==> v.tail == links[|links| - 1])
    && forall i :: 0 <= i < |links| - 1 ==> v.forward(links[i]) == links[i + 1]
  }

  /** Every link but the first points back to its predecessor. */
  ghost predicate ShowsBack(v: View, links: seq<word>) {
    forall i :: 0 < i < |links| ==> v.backward(links[i]) == links[i - 1]
  }

  /** The links can be kept with this header: none is zero and no cell touches the header. */
  ghost predicate Placed(header: nat, field: word, links: seq<word>) {
    forall link :: link in links ==> link != 0 && Apart(header, Cell(link, field))
  }

  /** Memory holds exactly this queue. */
  ghost predicate IsQueue(m: Memory, header: nat, field: word, links: seq<word>) {
    Distinct(links) && Placed(header, field, links) && Shows(ViewOf(m, header, field), links)
  }

  ghost predicate LinkedBack(m: Memory, header: nat, field: word, links: seq<word>) {
    ShowsBack(ViewOf(m, header, field), links)
  }

  /** The links without `link`. */
  function Without(links: seq<word>, link: word): (r: seq<word>)
    ensures link !in links ==> r == links
  {
    if |links| == 0 then [] else if links[0] == link then links[1..] else [links[0]] + Without(links[1..], link)
  }

  lemma {:induction false} WithoutAt(links: seq<word>, i: nat)
    requires i < |links| && Distinct(links)
    ensures Without(links, links[i]) == links[..i] + links[i + 1..]
  {
    var r := links[..i] + links[i + 1..];
    if i == 0 {
      assert r == links[1..];
    } else {
      var rest := links[1..];
      assert rest[i - 1] == links[i] && links[0] != links[i];
      DistinctRest(links);
      WithoutAt(rest, i - 1);
      assert r == [links[0]] + (rest[..i - 1] + rest[i..]);
    }
  }

  lemma DistinctRest(links: seq<word>)
    requires |links| > 0 && Distinct(links)
    ensures Distinct(links[1..])
  {
  }

  lemma AtTail(links: seq<word>, j: nat)
    requires j < |links| && Distinct(links)
    ensures links[j] == links[|links| - 1] <==> j == |links| - 1
  {
  }

  /** The last link is the one to remove and its unused forward word names itself. */
  predicate SelfLinkedTail(m: Memory, field: word, links: seq<word>, link: word) {
    |links| >= 2 && link == links[|links| - 1] && Forward(m, field, link) == link
  }

  /** A link that is not in the queue but named by the unused forward word of the
    last link makes the search write a backward word, and that changes the header. */
  predicate StrayWrite(m: Memory, header: nat, field: word, links: seq<word>, link: word) {
    && |links| > 0 && Forward(m, field, links[|links| - 1]) == link
    && !KeepsHeader(m, header, field, Forward(m, field, link))
  }

  /** Such a write happens: with the header in the cell of link 7, which is not in
    the queue, searching for link 2 overwrites the head. */
  lemma StrayWriteHappens(m: Memory)
    requires m(114) == m(116) == 1 && m(16) == 2 && m(32) == 7
    requires m(115) == m(117) == m(17) == m(33) == 0
    ensures IsQueue(m, 114, 0, [1]) && StrayWrite(m, 114, 0, [1], 2)
  {
    assert Forward(m, 0, 1) == 2 && Forward(m, 0, 2) == 7;
    WordAfterStore(m, Cell(7, 0) + 2, 7, 114);
  }

  /** Making the backward word of `link` name the link itself, as the search does
    for the link after the removed one, changes neither word of the header. */
  predicate KeepsHeader(m: Memory, header: nat, field: word, link: word) {
    var m' := StoreWord(m, Cell(link, field) + 2, link);
    Word(m', header) == Word(m, header) && Word(m', header + 2) == Word(m, header + 2)
  }

  /** Memory after `current` has been chained past `next`: the link after `next`
    then names itself as its predecessor. */
  function Chained(m: Memory, header: nat, field: word, current: word, next: word, tail: word): Memory {
    var following := Forward(m, field, next);
    var m' := StoreWord(m, Cell(current, field), following);
    if next == tail then StoreWord(m', header + 2, current) else StoreWord(m', Cell(following, field) + 2, following)
  }

  /** The backward word of `link` overlaps the header. */
  predicate BackTouches(header: nat, field: word, link: word) {
    header < Cell(link, field) + 4 && Cell(link, field) + 2 < header + 4
  }

  /** No word of the header or of one of these links lies at `a`. */
  ghost predicate Outside(header: nat, field: word, links: seq<word>, a: nat) {
    && !(header <= a < header + 4)
    && forall link :: link in links ==> !(Cell(link, field) <= a < Cell(link, field) + 4)
  }

  /** Memory is the same but for the header and these links. */
  ghost predicate KeptElsewhere(m: Memory, m': Memory, header: nat, field: word, links: seq<word>) {
    forall a: nat :: Outside(header, field, links, a) ==> m'(a) == m(a)
  }

  lemma KeptByStore(m: Memory, header: nat, field: word, links: seq<word>, a: nat, value: word)
    requires
      || header <= a <= header + 2
      || (exists link :: link in links && Cell(link, field) <= a <= Cell(link, field) + 2)
    ensures KeptElsewhere(m, StoreWord(m, a, value), header, field, links)
  {
    forall x: nat | Outside(header, field, links, x)
      ensures !(a <= x < a + 2)
    {
      if !(header <= a <= header + 2) {
        var link :| link in links && Cell(link, field) <= a <= Cell(link, field) + 2;
        assert !(Cell(link, field) <= x < Cell(link, field) + 4);
      }
    }
  }

  lemma KeptSame(m: Memory, header: nat, field: word)
    ensures KeptElsewhere(m, m, header, field, [])
  {
  }

  lemma KeptTwice(m: Memory, m1: Memory, m2: Memory, header: nat, field: word, links: seq<word>)
    requires KeptElsewhere(m, m1, header, field, links) && KeptElsewhere(m1, m2, header, field, links)
    ensures KeptElsewhere(m, m2, header, field, links)
  {
  }

  lemma KeptByFewer(m: Memory, m': Memory, header: nat, field: word, few: seq<word>, links: seq<word>)
    requires KeptElsewhere(m, m', header, field, few) && forall link :: link in few ==> link in links
    ensures KeptElsewhere(m, m', header, field, links)
  {
    forall a: nat | Outside(header, field, links, a)
      ensures Outside(header, field, few, a)
    {
    }
  }

  lemma WordAfterStore(m: Memory, a: nat, value: word, b: nat)
    requires a == b || a + 2 <= b || b + 2 <= a
    ensures Word(StoreWord(m, a, value), b) == if a == b then value else Word(m, b)
  {
  }

  /** The two views agree on the words of every link apart from the header. */
  ghost predicate SameLinks(v: View, v': View, header: nat, field: word) {
    forall l: word :: Apart(header, Cell(l, field)) ==> v'.forward(l) == v.forward(l) && v'.backward(l) == v.backward(l)
  }

  lemma StoreHead(m: Memory, header: nat, field: word, value: word)
    ensures var v, v' := ViewOf(m, header, field), ViewOf(StoreWord(m, header, value), header, field);
      v'.head == value && v'.tail == v.tail && SameLinks(v, v', header, field)
  {
    var m' := StoreWord(m, header, value);
    WordAfterStore(m, header, value, header + 2);
    forall l: word | Apart(header, Cell(l, field))
      ensures Forward(m', field, l) == Forward(m, field, l) && Backward(m', field, l) == Backward(m, field, l)
    {
      WordAfterStore(m, header, value, Cell(l, field));
      WordAfterStore(m, header, value, Cell(l, field) + 2);
    }
  }

  lemma StoreTail(m: Memory, header: nat, field: word, value: word)
    ensures var v, v' := ViewOf(m, header, field), ViewOf(StoreWord(m, header + 2, value), header, field);
      v'.head == v.head && v'.tail == value && SameLinks(v, v', header, field)
  {
    var m' := StoreWord(m, header + 2, value);
    WordAfterStore(m, header + 2, value, header);
    forall l: word | Apart(header, Cell(l, field))
      ensures Forward(m', field, l) == Forward(m, field, l) && Backward(m', field, l) == Backward(m, field, l)
    {
      WordAfterStore(m, header + 2, value, Cell(l, field));
      WordAfterStore(m, header + 2, value, Cell(l, field) + 2);
    }
  }

  /** The view differs in one forward word. */
  ghost predicate ForwardSet(v: View, v': View, link: word, value: word) {
    && v'.head == v.head && v'.tail == v.tail
    && forall l: word :: v'.forward(l) == (if l == link then value else v.forward(l)) && v'.backward(l) == v.backward(l)
  }

  /** The view differs in one backward word. */
  ghost predicate BackwardSet(v: View, v': View, link: word, value: word) {
    && v'.head == v.head && v'.tail == v.tail
    && forall l: word :: v'.backward(l) == (if l == link then value else v.backward(l)) && v'.forward(l) == v.forward(l)
  }

  lemma StoreForward(m: Memory, header: nat, field: word, link: word, value: word)
    requires Apart(header, Cell(link, field))
    ensures ForwardSet(ViewOf(m, header, field), ViewOf(StoreWord(m, Cell(link, field), value), header, field), link,
      value)
  {
    var a := Cell(link, field);
    var m' := StoreWord(m, a, value);
    WordAfterStore(m, a, value, header);
    WordAfterStore(m, a, value, header + 2);
    forall l: word
      ensures Forward(m', field, l) == (if l == link then value else Forward(m, field, l))
      ensures Backward(m', field, l) == Backward(m, field, l)
    {
      WordAfterStore(m, a, value, Cell(l, field));
      WordAfterStore(m, a, value, Cell(l, field) + 2);
    }
  }

  lemma StoreBackward(m: Memory, header: nat, field: word, link: word, value: word)
    requires !BackTouches(header, field, link)
    ensures BackwardSet(ViewOf(m, header, field), ViewOf(StoreWord(m, Cell(link, field) + 2, value), header, field),
      link, value)
  {
    var a := Cell(link, field) + 2;
    var m' := StoreWord(m, a, value);
    WordAfterStore(m, a, value, header);
    WordAfterStore(m, a, value, header + 2);
    forall l: word
      ensures Backward(m', field, l) == (if l == link then value else Backward(m, field, l))
      ensures Forward(m', field, l) == Forward(m, field, l)
    {
      WordAfterStore(m, a, value, Cell(l, field));
      WordAfterStore(m, a, value, Cell(l, field) + 2);
    }
  }

  /** Linking a new last cell and naming it in the header appends it. */
  lemma Append(v: View, v1: View, v2: View, v3: View, header: nat, field: word, links: seq<word>, link: word)
    requires Distinct(links) && Placed(header, field, links) && Shows(v, links)
    requires link != 0 && link !in links && Apart(header, Cell(link, field))
    requires links == [] ==> v2.head == link && SameLinks(v, v2, header, field)
    requires links != [] ==>
      ForwardSet(v, v1, links[|links| - 1], link) && BackwardSet(v1, v2, link, links[|links| - 1])
    requires v3.head == v2.head && v3.tail == link && SameLinks(v2, v3, header, field)
    ensures Distinct(links + [link]) && Placed(header, field, links + [link]) && Shows(v3, links + [link])
    ensures ShowsBack(v, links) ==> ShowsBack(v3, links + [link])
    ensures forall l: word :: l !in links && Apart(header, Cell(l, field)) ==> v3.forward(l) == v.forward(l)
  {
    var after := links + [link];
    forall i | 0 <= i < |after| - 1
      ensures v3.forward(after[i]) == after[i + 1]
    {
      assert after[i] in links;
    }
    if ShowsBack(v, links) {
      forall i | 0 < i < |after|
        ensures v3.backward(after[i]) == after[i - 1]
      {
        assert after[i] in after;
      }
    }
  }

  /** Naming the second link as the head drops the first one. */
  lemma DropFirst(v: View, v': View, header: nat, field: word, links: seq<word>)
    requires links != [] && Distinct(links) && Placed(header, field, links) && Shows(v, links)
    requires v'.head == (if |links| == 1 then 0 else links[1]) && v'.tail == v.tail && SameLinks(v, v', header, field)
    ensures Distinct(links[1..]) && Placed(header, field, links[1..]) && Shows(v', links[1..])
    ensures ShowsBack(v, links) ==> ShowsBack(v', links[1..])
  {
    forall i | 0 <= i < |links|
      ensures v'.forward(links[i]) == v.forward(links[i]) && v'.backward(links[i]) == v.backward(links[i])
    {
      assert links[i] in links;
    }
  }

  /** The forward word of `current` is chained past `next`; the tail word is set
    back if `next` was the tail, and else the link after `next` names itself as
    its predecessor, which keeps the header or not. */
  ghost predicate Relinked(v: View, v': View, header: nat, field: word, current: word, next: word, tail: word,
                           kept: bool) {
    && (if next == tail then v'.head == v.head && v'.tail == current
        else (v'.head == v.head && v'.tail == v.tail <==> kept))
    && forall l: word :: Apart(header, Cell(l, field)) ==>
      && v'.forward(l) == (if l == current then v.forward(next) else v.forward(l))
      && v'.backward(l) == if next != tail && l == v.forward(next) then l else v.backward(l)
  }

  lemma ApartKeepsHeader(m: Memory, header: nat, field: word, link: word)
    requires !BackTouches(header, field, link)
    ensures KeepsHeader(m, header, field, link)
  {
    var a := Cell(link, field) + 2;
    WordAfterStore(m, a, link, header);
    WordAfterStore(m, a, link, header + 2);
  }

  /** A word stored apart from the header has no influence on that. */
  lemma KeepsHeaderStill(m: Memory, header: nat, field: word, current: word, value: word, link: word)
    requires Apart(header, Cell(current, field))
    ensures KeepsHeader(StoreWord(m, Cell(current, field), value), header, field, link)
      <==> KeepsHeader(m, header, field, link)
  {
  }

  /** A backward word that may touch the header: the links apart from it. */
  lemma StoreBackwardAnywhere(m: Memory, header: nat, field: word, link: word, l: word)
    requires Apart(header, Cell(l, field))
    ensures var m' := StoreWord(m, Cell(link, field) + 2, link);
      && Forward(m', field, l) == Forward(m, field, l)
      && Backward(m', field, l) == if l == link then link else Backward(m, field, l)
  {
    WordAfterStore(m, Cell(link, field) + 2, link, Cell(l, field));
    WordAfterStore(m, Cell(link, field) + 2, link, Cell(l, field) + 2);
  }

  /** Chaining past a link, as a change of the view. */
  lemma ChainedRelinks(m: Memory, header: nat, field: word, current: word, next: word, tail: word)
    requires Apart(header, Cell(current, field))
    ensures Relinked(ViewOf(m, header, field), ViewOf(Chained(m, header, field, current, next, tail), header, field),
                     header, field, current, next, tail, KeepsHeader(m, header, field, Forward(m, field, next)))
  {
    hide KeepsHeader;
    hide StoreWord;
    hide Word;
    var following := Forward(m, field, next);
    var m1, m2 := StoreWord(m, Cell(current, field), following), Chained(m, header, field, current, next, tail);
    var v, v1, v2 := ViewOf(m, header, field), ViewOf(m1, header, field), ViewOf(m2, header, field);
    StoreForward(m, header, field, current, following);
    if next == tail {
      StoreTail(m1, header, field, current);
    } else {
      KeepsHeaderStill(m, header, field, current, following, following);
      HeaderKept(m1, header, field, following);
      forall l: word | Apart(header, Cell(l, field))
        ensures v2.forward(l) == v1.forward(l) && v2.backward(l) == if l == following then l else v1.backward(l)
      {
        StoreBackwardAnywhere(m1, header, field, following, l);
      }
    }
  }

  lemma HeaderKept(m: Memory, header: nat, field: word, link: word)
    ensures var m' := StoreWord(m, Cell(link, field) + 2, link);
      KeepsHeader(m, header, field, link)
      <==> Word(m', header) == Word(m, header) && Word(m', header + 2) == Word(m, header + 2)
  {
  }

  /** The backward words after link `i` was chained past: they are as before, but
    for the link after it, which names itself. */
  ghost predicate BackAfter(v: View, v': View, links: seq<word>, i: nat) {
    forall k :: 0 <= k < |links| ==>
      v'.backward(links[k]) == if i < |links| - 1 && k == i + 1 then links[k] else v.backward(links[k])
  }

  /** The words of the links after link `i` was chained past. */
  lemma UnlinkWords(v: View, v': View, header: nat, field: word, links: seq<word>, i: nat)
    requires Distinct(links) && Placed(header, field, links) && Shows(v, links) && 0 < i < |links|
    requires Relinked(v, v', header, field, links[i - 1], links[i], links[|links| - 1], true)
    ensures forall k :: 0 <= k < |links| ==> v'.forward(links[k]) == v.forward(links[if k == i - 1 then i else k])
    ensures BackAfter(v, v', links, i)
    ensures v'.head == v.head && v'.tail == if i == |links| - 1 then links[i - 1] else v.tail
  {
    AtTail(links, i);
    assert i < |links| - 1 ==> v.forward(links[i]) == links[i + 1];
    forall k | 0 <= k < |links|
      ensures v'.forward(links[k]) == v.forward(links[if k == i - 1 then i else k])
      ensures v'.backward(links[k]) == if i < |links| - 1 && k == i + 1 then links[k] else v.backward(links[k])
    {
      assert links[k] in links;
    }
  }

  /** Chaining the predecessor of link `i` past it removes it; the removed link
    keeps its own forward word. */
  lemma Unlink(v: View, v': View, header: nat, field: word, links: seq<word>, i: nat)
    requires Distinct(links) && Placed(header, field, links) && Shows(v, links) && 0 < i < |links|
    requires Relinked(v, v', header, field, links[i - 1], links[i], links[|links| - 1], true)
    ensures forall k :: 0 <= k < |links| ==> v'.forward(links[k]) == v.forward(links[if k == i - 1 then i else k])
    ensures BackAfter(v, v', links, i)
    ensures Shows(v', Without(links, links[i]))
  {
    hide Relinked;
    hide Placed;
    UnlinkWords(v, v', header, field, links, i);
    WithoutAt(links, i);
    var after := Without(links, links[i]);
    hide Without;
    forall k | 0 <= k < |after| - 1
      ensures v'.forward(after[k]) == after[k + 1]
    {
      if k < i - 1 {
        assert after[k] == links[k] && after[k + 1] == links[k + 1];
      } else if k == i - 1 {
        assert after[k] == links[k] && after[k + 1] == links[i + 1];
      } else {
        assert after[k] == links[k + 1] && after[k + 1] == links[k + 2];
      }
    }
  }

  /** Changing the unused forward word of the tail does not matter. */
  lemma TailForwardUnused(v: View, v': View, header: nat, field: word, links: seq<word>, next: word, tail: word,
                          kept: bool)
    requires links != [] && Distinct(links) && Placed(header, field, links) && Shows(v, links)
    requires next != tail && Relinked(v, v', header, field, links[|links| - 1], next, tail, kept)
    ensures Shows(v', links) <==> kept
    ensures forall k :: 0 <= k < |links| ==>
      v'.backward(links[k]) == if links[k] == v.forward(next) then links[k] else v.backward(links[k])
  {
    forall k | 0 <= k < |links|
      ensures k < |links| - 1 ==> v'.forward(links[k]) == links[k + 1]
      ensures v'.backward(links[k]) == if links[k] == v.forward(next) then links[k] else v.backward(links[k])
    {
      assert links[k] in links;
    }
  }

  /** Removing a link keeps the rest a queue that can be kept with this header. */
  lemma WithoutPlaced(header: nat, field: word, links: seq<word>, i: nat)
    requires Distinct(links) && Placed(header, field, links) && i < |links|
    ensures Distinct(Without(links, links[i])) && Placed(header, field, Without(links, links[i]))
  {
    hide Without;
    WithoutAt(links, i);
    var r := Without(links, links[i]);
    assert forall k :: 0 <= k < |r| ==> r[k] == links[if k < i then k else k + 1];
    forall link | link in r
      ensures link in links
    {
      var k :| 0 <= k < |r| && r[k] == link;
    }
  }

  /** Memory cannot hold a queue both with and without its last link. */
  lemma TailDecides(v: View, links: seq<word>)
    requires |links| >= 2 && Distinct(links) && Shows(v, links)
    ensures !Shows(v, Without(links, links[|links| - 1]))
  {
    WithoutAt(links, |links| - 1);
  }

  ghost function IndexOf(links: seq<word>, link: word): (i: nat)
    ensures i <= |links| && (i < |links| ==> links[i] == link)
    ensures i == |links| <==> link !in links
  {
    if |links| == 0 || links[0] == link then 0 else 1 + IndexOf(links[1..], link)
  }

  /** The state of the search once it has reached link `i`: that link is unlinked,
    its own forward word and the links after it are as before. */
  ghost predicate Walked(v: View, now: View, links: seq<word>, i: nat)
    requires 0 < i < |links|
  {
    && Shows(now, Without(links, links[i]))
    && (forall k :: i <= k < |links| - 1 ==> now.forward(links[k]) == links[k + 1])
    && now.forward(links[i]) == v.forward(links[i]) == now.forward(links[i - 1])
    && (i == |links| - 1 ==> forall k :: 0 <= k < i - 1 ==> now.forward(links[k]) == links[k + 1])
    && BackAfter(v, now, links, i)
  }

  /** What the search leaves. */
  ghost predicate Searched(v: View, v': View, links: seq<word>, target: word, kept: bool)
    requires links != []
  {
    var i := IndexOf(links, target);
    var selfLinked := i == |links| - 1 && v.forward(target) == target;
    var stale := v.forward(links[|links| - 1]) == target;
    && (i < |links| ==> Shows(v', if selfLinked then links else Without(links, target)) && BackAfter(v, v', links, i))
    && (i == |links| ==>
      && (Shows(v', links) <==> stale ==> kept)
      && forall k :: 0 <= k < |links| ==>
        v'.backward(links[k]) == if stale && links[k] == v.forward(target) then links[k] else v.backward(links[k]))
    && (0 < i == |links| - 1 ==> v'.forward(links[i - 1]) == v.forward(target))
  }

  /** Whether the header is kept matters only for a link that is not in the queue. */
  lemma SearchedEither(v: View, v': View, links: seq<word>, target: word, kept: bool, kept': bool)
    requires links != [] && Searched(v, v', links, target, kept) && (target !in links ==> kept == kept')
    ensures Searched(v, v', links, target, kept')
  {
  }

  /** One round of the search. */
  ghost predicate Round(before: View, after: View, header: nat, field: word, links: seq<word>, target: word, j: nat,
                        kept: bool)
    requires j < |links|
  {
    if before.forward(links[j]) == target then Relinked(before, after, header, field, links[j], target,
      links[|links| - 1], kept)
    else after == before
  }

  /** A round before the tail either goes on or unlinks the next link. */
  lemma RoundInside(v: View, before: View, after: View, header: nat, field: word, links: seq<word>, target: word,
                    j: nat,
                    kept: bool)
    requires Distinct(links) && Placed(header, field, links) && Shows(v, links) && j < |links| - 1 && links[0] != target
    requires if j < IndexOf(links, target) then before == v else Walked(v, before, links, IndexOf(links, target))
    requires Round(before, after, header, field, links, target, j, kept)
    requires Apart(header, Cell(before.forward(target), field)) ==> kept
    ensures before.forward(links[j]) == links[j + 1]
    ensures if j + 1 < IndexOf(links, target) then after == v else Walked(v, after, links, IndexOf(links, target))
  {
    var i, last := IndexOf(links, target), |links| - 1;
    assert links[j + 1] == target <==> j + 1 == i;
    if j + 1 == i {
      if i < last {
        assert links[i + 1] in links && before.forward(target) == links[i + 1];
      }
      Unlink(v, after, header, field, links, i);
    }
  }

  /** The round at the tail. */
  lemma RoundAtTail(v: View, before: View, after: View, header: nat, field: word, links: seq<word>, target: word,
                    kept: bool)
    requires links != [] && Distinct(links) && Placed(header, field, links) && Shows(v, links) && links[0] != target
    requires if IndexOf(links, target) == |links| then before == v else Walked(v, before, links, IndexOf(links, target))
    requires Round(before, after, header, field, links, target, |links| - 1, kept)
    requires Apart(header, Cell(before.forward(target), field)) ==> kept
    ensures Searched(v, after, links, target, kept)
  {
    var i, last := IndexOf(links, target), |links| - 1;
    if before.forward(links[last]) != target {
    } else if i == |links| {
      TailForwardUnused(v, after, header, field, links, target, links[last], kept);
    } else if i < last {
      assert before.forward(target) == links[i + 1] && links[i + 1] in links;
      WithoutAt(links, i);
      WithoutPlaced(header, field, links, i);
      TailForwardUnused(before, after, header, field, Without(links, target), target, links[last], kept);
      BackTwice(v, before, after, header, field, links, i);
    } else {
      SelfLinkRestored(v, before, after, header, field, links, kept);
    }
  }

  /** Writing the backward word after link `i` again changes none. */
  lemma BackTwice(v: View, before: View, after: View, header: nat, field: word, links: seq<word>, i: nat)
    requires i < |links| - 1 && Distinct(links) && Placed(header, field, links) && BackAfter(v, before, links, i)
    requires forall l: word :: Apart(header, Cell(l, field)) ==>
      after.backward(l) == if l == links[i + 1] then l else before.backward(l)
    ensures BackAfter(v, after, links, i)
  {
    forall k | 0 <= k < |links|
      ensures after.backward(links[k]) == if k == i + 1 then links[k] else before.backward(links[k])
    {
      assert links[k] in links;
    }
  }

  /** A tail that names itself is put back by the last round of the search. */
  lemma SelfLinkRestored(v: View, before: View, after: View, header: nat, field: word, links: seq<word>, kept: bool)
    requires |links| >= 2 && Distinct(links) && Placed(header, field, links)
    requires Shows(v, links) && v.forward(links[|links| - 1]) == links[|links| - 1]
    requires Walked(v, before, links, |links| - 1)
    requires var tail := links[|links| - 1]; Relinked(before, after, header, field, tail, tail, tail, kept)
    ensures Shows(after, links) && BackAfter(v, after, links, |links| - 1)
    ensures after.forward(links[|links| - 2]) == v.forward(links[|links| - 1])
  {
    WithoutAt(links, |links| - 1);
    forall k | 0 <= k < |links|
      ensures k < |links| - 1 ==> after.forward(links[k]) == links[k + 1]
      ensures after.backward(links[k]) == before.backward(links[k])
    {
      assert links[k] in links;
    }
  }

  /** The backward links after a removal. */
  lemma RemovalBack(v: View, v': View, links: seq<word>, i: nat)
    requires Distinct(links) && ShowsBack(v, links) && 0 < i < |links| && BackAfter(v, v', links, i)
    ensures ShowsBack(v', Without(links, links[i])) <==> i == |links| - 1
    ensures i == |links| - 1 ==> ShowsBack(v', links)
  {
    WithoutAt(links, i);
    var after := Without(links, links[i]);
    if i < |links| - 1 {
      assert after[i] == links[i + 1] && after[i - 1] == links[i - 1];
      assert v'.backward(after[i]) == links[i + 1];
    } else {
      assert forall k :: 0 <= k < |after| ==> after[k] == links[k];
    }
  }

  /** The backward links after a search for a link that is not in the queue. */
  lemma MissBack(v: View, v': View, links: seq<word>, stale: bool, following: word)
    requires Distinct(links) && ShowsBack(v, links)
    requires forall k :: 0 <= k < |links| ==>
      v'.backward(links[k]) == if stale && links[k] == following then links[k] else v.backward(links[k])
    ensures ShowsBack(v', links) <==> !(stale && links != [] && following in links[1..])
  {
    if stale && links != [] && following in links[1..] {
      var k :| 0 <= k < |links[1..]| && links[1..][k] == following;
      var next := k + 1;
      assert links[next] == following && v'.backward(links[next]) == links[next] != links[next - 1];
    } else {
      forall k | 0 < k < |links|
        ensures v'.backward(links[k]) == links[k - 1]
      {
        assert links[1..][k - 1] == links[k];
      }
    }
  }

  /** The outcome of the search in terms of queues in memory. */
  lemma SearchedIsRemoval(m: Memory, m': Memory, header: nat, field: word, links: seq<word>, link: word)
    requires IsQueue(m, header, field, links) && links != [] && links[0] != link
    requires Searched(ViewOf(m, header, field), ViewOf(m', header, field), links, link,
                      KeepsHeader(m, header, field, Forward(m, field, link)))
    ensures link in links ==> (IsQueue(m', header, field, Without(links, link))
      <==> !SelfLinkedTail(m, field, links, link))
    ensures SelfLinkedTail(m, field, links, link) ==> IsQueue(m', header, field, links)
    ensures link !in links ==> (IsQueue(m', header, field, links) <==> !StrayWrite(m, header, field, links, link))
    ensures LinkedBack(m, header, field, links) && link in links ==>
      (LinkedBack(m', header, field, Without(links, link)) <==> link == links[|links| - 1])
    ensures LinkedBack(m, header, field, links) && link !in links ==>
      (LinkedBack(m', header, field, links) <==>
        !(Forward(m, field, links[|links| - 1]) == link && Forward(m, field, link) in links[1..]))
  {
    var v, v', i := ViewOf(m, header, field), ViewOf(m', header, field), IndexOf(links, link);
    assert v.forward(link) == Forward(m, field, link);
    assert v.forward(links[|links| - 1]) == Forward(m, field, links[|links| - 1]);
    if i == |links| {
      if LinkedBack(m, header, field, links) {
        MissBack(v, v', links, v.forward(links[|links| - 1]) == link, v.forward(link));
      }
    } else {
      WithoutPlaced(header, field, links, i);
      if LinkedBack(m, header, field, links) {
        RemovalBack(v, v', links, i);
      }
      assert i == |links| - 1 <==> link == links[|links| - 1];
      if SelfLinkedTail(m, field, links, link) {
        TailDecides(v', links);
      }
    }
  }

  // The queue in terms of bytes.

  lemma WordInBytes(m: Memory, a: nat, w: word)
    ensures Word(m, a) == w <==> m(a) as int == w % 0x100 && m(a + 1) as int == w / 0x100
  {
  }

  lemma SameWordInBytes(m: Memory, a: nat, m': Memory, b: nat)
    ensures Word(m, a) == Word(m', b) <==> m(a) == m'(b) && m(a + 1) == m'(b + 1)
  {
    WordInBytes(m, a, Word(m', b));
  }

  lemma PlacedInBytes(header: nat, field: word, links: seq<word>)
    ensures Placed(header, field, links) <==>
      forall i :: 0 <= i < |links| ==> var a := 16 * links[i] as int + field as int;
        links[i] != 0 && (header + 4 <= a || a + 4 <= header)
  {
    assert forall i :: 0 <= i < |links| ==> links[i] in links;
    assert forall link :: link in links ==> exists i :: 0 <= i < |links| && links[i] == link;
  }

  lemma ForwardInBytes(m: Memory, header: nat, field: word, links: seq<word>)
    ensures (forall i :: 0 <= i < |links| - 1 ==> ViewOf(m, header, field).forward(links[i]) == links[i + 1]) <==>
      forall i, j :: 0 <= i < |links| && 0 <= j < |links| && j == i + 1 ==>
        var a: nat := 16 * links[i] as int + field as int;
        m(a) as int == links[j] % 0x100 && m(a + 1) as int == links[j] / 0x100
  {
    var v := ViewOf(m, header, field);
    forall i, j | 0 <= i < |links| && 0 <= j < |links| && j == i + 1
      ensures v.forward(links[i]) == links[j] <==>
        var a: nat := 16 * links[i] as int + field as int;
        m(a) as int == links[j] % 0x100 && m(a + 1) as int == links[j] / 0x100
    {
      WordInBytes(m, 16 * links[i] as int + field as int, links[j]);
    }
    assert (forall i :: 0 <= i < |links| - 1 ==> v.forward(links[i]) == links[i + 1]) <==>
      forall i, j :: 0 <= i < |links| && 0 <= j < |links| && j == i + 1 ==> v.forward(links[i]) == links[j];
  }

  /** Memory holds a queue exactly if the two words of the header name its ends and
    the word at each link names the link after it. */
  lemma QueueInBytes(m: Memory, header: nat, field: word, links: seq<word>)
    ensures IsQueue(m, header, field, links) <==>
      && (forall i, j :: 0 <= i < j < |links| ==> links[i] != links[j])
      && (forall i :: 0 <= i < |links| ==> var a := 16 * links[i] as int + field as int;
           links[i] != 0 && (header + 4 <= a || a + 4 <= header))
      && (links == [] ==> m(header) == m(header + 1) == 0)
      && (links != [] ==>
           && m(header) as int == links[0] % 0x100 && m(header + 1) as int == links[0] / 0x100
           && var last := links[|links| - 1];
              m(header + 2) as int == last % 0x100 && m(header + 3) as int == last / 0x100)
      && forall i, j :: 0 <= i < |links| && 0 <= j < |links| && j == i + 1 ==>
           var a: nat := 16 * links[i] as int + field as int;
           m(a) as int == links[j] % 0x100 && m(a + 1) as int == links[j] / 0x100
  {
    hide Word;
    hide Forward;
    hide Placed;
    WordInBytes(m, header, if links == [] then 0 else links[0]);
    if links != [] {
      WordInBytes(m, header + 2, links[|links| - 1]);
    }
    ForwardInBytes(m, header, field, links);
    PlacedInBytes(header, field, links);
  }

  /** The backward links are right exactly if the word behind names the link before. */
  lemma BackInBytes(m: Memory, header: nat, field: word, links: seq<word>)
    ensures LinkedBack(m, header, field, links) <==>
      forall i, j :: 0 <= i < |links| && 0 <= j < |links| && j == i + 1 ==>
        var a: nat := 16 * links[j] as int + field as int + 2;
        m(a) as int == links[i] % 0x100 && m(a + 1) as int == links[i] / 0x100
  {
    var v := ViewOf(m, header, field);
    forall i, j | 0 <= i < |links| && 0 <= j < |links| && j == i + 1
      ensures v.backward(links[j]) == links[i] <==>
        var a: nat := 16 * links[j] as int + field as int + 2;
        m(a) as int == links[i] % 0x100 && m(a + 1) as int == links[i] / 0x100
    {
      WordInBytes(m, 16 * links[j] as int + field as int + 2, links[i]);
    }
    assert (forall i :: 0 < i < |links| ==> v.backward(links[i]) == links[i - 1]) <==>
      forall i, j :: 0 <= i < |links| && 0 <= j < |links| && j == i + 1 ==> v.backward(links[j]) == links[i];
  }

  /** The writes of an insertion. */
  ghost predicate Insertion(m: Memory, m': Memory, header: nat, field: word, links: seq<word>, link: word) {
    if links == [] then m' == StoreWord(StoreWord(m, header, link), header + 2, link)
    else
      var last := links[|links| - 1];
      m' == StoreWord(StoreWord(StoreWord(m, Cell(last, field), link), Cell(link, field) + 2, last), header + 2, link)
  }

  /** They append the link to the queue. */
  lemma InsertionAppends(m: Memory, m': Memory, header: nat, field: word, links: seq<word>, link: word)
    requires IsQueue(m, header, field, links) && Insertion(m, m', header, field, links, link)
    requires link != 0 && link !in links && Apart(header, Cell(link, field))
    ensures IsQueue(m', header, field, links + [link])
    ensures LinkedBack(m, header, field, links) ==> LinkedBack(m', header, field, links + [link])
    ensures forall l: word :: l !in links && Apart(header, Cell(l, field)) ==>
      Forward(m', field, l) == Forward(m, field, l)
  {
    hide StoreWord;
    hide Word;
    hide SameLinks;
    hide ForwardSet;
    hide BackwardSet;
    var v, v' := ViewOf(m, header, field), ViewOf(m', header, field);
    if links == [] {
      var m2 := StoreWord(m, header, link);
      StoreHead(m, header, field, link);
      StoreTail(m2, header, field, link);
      Append(v, v, ViewOf(m2, header, field), v', header, field, links, link);
    } else {
      var last := links[|links| - 1];
      assert last in links;
      var m1 := StoreWord(m, Cell(last, field), link);
      var m2 := StoreWord(m1, Cell(link, field) + 2, last);
      StoreForward(m, header, field, last, link);
      StoreBackward(m1, header, field, link, last);
      StoreTail(m2, header, field, link);
      Append(v, ViewOf(m1, header, field), ViewOf(m2, header, field), v', header, field, links, link);
    }
    forall l: word | l !in links && Apart(header, Cell(l, field))
      ensures Forward(m', field, l) == Forward(m, field, l)
    {
      assert v'.forward(l) == v.forward(l);
    }
  }

  lemma IndexOfAt(links: seq<word>, j: nat)
    requires Distinct(links) && j < |links|
    ensures IndexOf(links, links[j]) == j
  {
    var i := IndexOf(links, links[j]);
    assert links[i] == links[j];
  }

  /** The words after the search has removed link `j`. */
  lemma RemovalWords(v: View, v': View, links: seq<word>, j: nat, kept: bool)
    requires Distinct(links) && Shows(v, links) && 0 < j < |links| && Searched(v, v', links, links[j], kept)
    ensures v'.forward(links[j - 1]) == v.forward(links[j])
    ensures j < |links| - 1 ==> v'.backward(links[j + 1]) == links[j + 1]
  {
    IndexOfAt(links, j);
    WithoutAt(links, j);
    hide Without;
    hide IndexOf;
    hide Distinct;
    var after := Without(links, links[j]);
    if j < |links| - 1 {
      assert after[j - 1] == links[j - 1] && after[j] == links[j + 1];
      assert v'.forward(after[j - 1]) == after[j] && v.forward(links[j]) == links[j + 1];
    }
  }

  /** The words of a queue after a search. */
  lemma SearchedWords(m: Memory, m': Memory, header: nat, field: word, links: seq<word>, link: word, kept: bool)
    requires IsQueue(m, header, field, links) && links != [] && links[0] != link
    requires Searched(ViewOf(m, header, field), ViewOf(m', header, field), links, link, kept)
    ensures var j := IndexOf(links, link); j < |links| ==> Forward(m', field, links[j - 1]) == Forward(m, field, link)
    ensures var j := IndexOf(links, link); j < |links| - 1 ==> Backward(m', field, links[j + 1]) == links[j + 1]
  {
    hide Word;
    hide Searched;
    if IndexOf(links, link) < |links| {
      RemovalWords(ViewOf(m, header, field), ViewOf(m', header, field), links, IndexOf(links, link), kept);
    }
  }

  /** The header names the ends of a queue. */
  lemma HeaderNames(m: Memory, header: nat, field: word, links: seq<word>)
    requires IsQueue(m, header, field, links)
    ensures Word(m, header) == 0 <==> links == []
    ensures links != [] ==> Word(m, header) == links[0] && Word(m, header + 2) == links[|links| - 1]
  {
    assert links != [] ==> links[0] in links;
  }

  /** The ends of a queue after a removal. */
  lemma RemainingEnds(m: Memory, m': Memory, header: nat, field: word, links: seq<word>, link: word)
    requires IsQueue(m, header, field, links) && 0 < IndexOf(links, link) < |links|
    requires IsQueue(m', header, field, if SelfLinkedTail(m, field, links, link) then links else Without(links, link))
    ensures Word(m', header) == links[0]
    ensures var j := IndexOf(links, link);
      Word(m', header + 2)
        == if j == |links| - 1 && Forward(m, field, link) != link then links[j - 1] else links[|links| - 1]
  {
    var j := IndexOf(links, link);
    AtTail(links, j);
    WithoutAt(links, j);
    hide Without;
    hide Word;
    HeaderNames(m', header, field, if SelfLinkedTail(m, field, links, link) then links else Without(links, link));
  }

  /** A removal elsewhere than at the head, in bytes: the forward word of the removed
    link moves to its predecessor, the link after it names itself as its
    predecessor, and the header names the new ends; a last link that names itself
    is still named. */
  lemma RemovalInBytes(m: Memory, m': Memory, header: nat, field: word, links: seq<word>, link: word)
    requires 0 < IndexOf(links, link) < |links| && Word(m', header) == links[0]
    requires var j := IndexOf(links, link);
      && Forward(m', field, links[j - 1]) == Forward(m, field, link)
      && (j < |links| - 1 ==> Backward(m', field, links[j + 1]) == links[j + 1])
      && Word(m', header + 2)
           == if j == |links| - 1 && Forward(m, field, link) != link then links[j - 1] else links[|links| - 1]
    ensures var j := IndexOf(links, link);
      var a: nat, b: nat := 16 * links[j - 1] as int + field as int, 16 * link as int + field as int;
      var selfLinked := m(b) as int == link % 0x100 && m(b + 1) as int == link / 0x100;
      var tail := if j == |links| - 1 && !selfLinked then links[j - 1] else links[|links| - 1];
      && m'(a) == m(b) && m'(a + 1) == m(b + 1)
      && m'(header) as int == links[0] % 0x100 && m'(header + 1) as int == links[0] / 0x100
      && m'(header + 2) as int == tail % 0x100 && m'(header + 3) as int == tail / 0x100
    ensures var j := IndexOf(links, link); j < |links| - 1 ==>
      var c: nat := 16 * links[j + 1] as int + field as int + 2;
      m'(c) as int == links[j + 1] % 0x100 && m'(c + 1) as int == links[j + 1] / 0x100
  {
    var j := IndexOf(links, link);
    hide IndexOf;
    hide Word;
    MovedWord(m, m', header, Cell(links[j - 1], field), Cell(link, field), links[0], links[j - 1], links[|links| - 1],
              link, j == |links| - 1);
    if j < |links| - 1 {
      WordInBytes(m', Cell(links[j + 1], field) + 2, links[j + 1]);
    }
  }

  lemma MovedWord(m: Memory, m': Memory, header: nat, a: nat, b: nat, head: word, before: word, last: word, link: word,
                  atTail: bool)
    requires Word(m', a) == Word(m, b) && Word(m', header) == head
    requires Word(m', header + 2) == if atTail && Word(m, b) != link then before else last
    ensures m'(a) == m(b) && m'(a + 1) == m(b + 1)
    ensures m'(header) as int == head % 0x100 && m'(header + 1) as int == head / 0x100
    ensures var selfLinked := m(b) as int == link % 0x100 && m(b + 1) as int == link / 0x100;
      var tail := if atTail && !selfLinked then before else last;
      m'(header + 2) as int == tail % 0x100 && m'(header + 3) as int == tail / 0x100
  {
    hide Word;
    WordInBytes(m, b, link);
    SameWordInBytes(m', a, m, b);
    WordInBytes(m', header, head);
    WordInBytes(m', header + 2, Word(m', header + 2));
  }

  lemma StoreInBytes(m: Memory, a: nat, w: word)
    ensures var m' := StoreWord(m, a, w);
      && m'(a) as int == w % 0x100 && m'(a + 1) as int == w / 0x100
      && forall x: nat :: x != a && x != a + 1 ==> m'(x) == m(x)
  {
  }

  /** Every byte after an insertion. */
  lemma InsertionInBytes(m: Memory, m': Memory, header: nat, field: word, links: seq<word>, link: word)
    requires IsQueue(m, header, field, links) && Insertion(m, m', header, field, links, link)
    requires link !in links && Apart(header, Cell(link, field))
    ensures m'(header + 2) as int == link % 0x100 && m'(header + 3) as int == link / 0x100
    ensures links == [] ==>
      && m'(header) as int == link % 0x100 && m'(header + 1) as int == link / 0x100
      && forall x: nat :: x !in {header, header + 1, header + 2, header + 3} ==> m'(x) == m(x)
    ensures links != [] ==> var last := links[|links| - 1];
      var a: nat, b: nat := 16 * last as int + field as int, 16 * link as int + field as int + 2;
      && m'(a) as int == link % 0x100 && m'(a + 1) as int == link / 0x100
      && m'(b) as int == last % 0x100 && m'(b + 1) as int == last / 0x100
      && forall x: nat :: x !in {a, a + 1, b, b + 1, header + 2, header + 3} ==> m'(x) == m(x)
  {
    hide StoreWord;
    if links == [] {
      StoreInBytes(m, header, link);
      StoreInBytes(StoreWord(m, header, link), header + 2, link);
    } else {
      var last := links[|links| - 1];
      assert last in links;
      var m1 := StoreWord(m, Cell(last, field), link);
      StoreInBytes(m, Cell(last, field), link);
      StoreInBytes(m1, Cell(link, field) + 2, last);
      StoreInBytes(StoreWord(m1, Cell(link, field) + 2, last), header + 2, link);
    }
  }

  lemma InsertionKeeps(m: Memory, m': Memory, header: nat, field: word, links: seq<word>, link: word)
    requires Insertion(m, m', header, field, links, link)
    ensures KeptElsewhere(m, m', header, field, links + [link])
  {
    var all := links + [link];
    assert link in all;
    if links != [] {
      assert links[|links| - 1] in all;
    }
  }

  /** The bytes after a link was chained past: its forward word has moved to its
    predecessor, and the tail word or the backward word of the link after it is new. */
  lemma ChainedInBytes(m: Memory, header: nat, field: word, current: word, next: word, tail: word)
    requires Apart(header, Cell(current, field))
    ensures var m' := Chained(m, header, field, current, next, tail);
      var a: nat, b: nat := 16 * current as int + field as int, 16 * next as int + field as int;
      && m'(a) == m(b) && m'(a + 1) == m(b + 1)
      && (next == tail ==> m'(header + 2) as int == current % 0x100 && m'(header + 3) as int == current / 0x100)
      && (next != tail ==> forall l: word :: var c: nat := 16 * l as int + field as int + 2;
           m(b) as int == l % 0x100 && m(b + 1) as int == l / 0x100 ==>
           m'(c) as int == l % 0x100 && m'(c + 1) as int == l / 0x100)
  {
    hide StoreWord;
    hide Word;
    var following := Forward(m, field, next);
    var m1 := StoreWord(m, Cell(current, field), following);
    WordInBytes(m, Cell(next, field), following);
    StoreInBytes(m, Cell(current, field), following);
    StoreInBytes(m1, header + 2, current);
    StoreInBytes(m1, Cell(following, field) + 2, following);
    forall l: word
      ensures m(Cell(next, field)) as int == l % 0x100 && m(Cell(next, field) + 1) as int == l / 0x100
        ==> l == following
    {
      WordInBytes(m, Cell(next, field), l);
    }
  }

  lemma ChainedKeeps(m: Memory, header: nat, field: word, current: word, next: word, tail: word)
    ensures KeptElsewhere(m, Chained(m, header, field, current, next, tail), header, field,
      [current, Forward(m, field, next)])
  {
    var following := Forward(m, field, next);
    assert current in [current, following] && following in [current, following];
  }

  /** The head after a removal at the head. */
  function NextHead(m: Memory, field: word, links: seq<word>): word
    requires links != []
  {
    if |links| == 1 then 0 else Forward(m, field, links[0])
  }

  /** Writing it drops the first link. */
  lemma BeheadingDrops(m: Memory, header: nat, field: word, links: seq<word>)
    requires IsQueue(m, header, field, links) && links != []
    ensures var m' := StoreWord(m, header, NextHead(m, field, links));
      && IsQueue(m', header, field, links[1..])
      && (LinkedBack(m, header, field, links) ==> LinkedBack(m', header, field, links[1..]))
      && (forall l: word :: Apart(header, Cell(l, field)) ==> Forward(m', field, l) == Forward(m, field, l))
      && KeptElsewhere(m, m', header, field, [])
  {
    var value := NextHead(m, field, links);
    var m' := StoreWord(m, header, value);
    KeptByStore(m, header, field, [], header, value);
    hide StoreWord;
    hide KeptElsewhere;
    hide Word;
    var v, v' := ViewOf(m, header, field), ViewOf(m', header, field);
    StoreHead(m, header, field, value);
    assert |links| > 1 ==> v.forward(links[0]) == links[1];
    DropFirst(v, v', header, field, links);
    forall l: word | Apart(header, Cell(l, field))
      ensures Forward(m', field, l) == Forward(m, field, l)
    {
      assert v'.forward(l) == v.forward(l);
    }
  }

  /** Every byte after that write. */
  lemma BeheadingInBytes(m: Memory, header: nat, field: word, links: seq<word>)
    requires links != []
    ensures var m' := StoreWord(m, header, NextHead(m, field, links));
      var a: nat := 16 * links[0] as int + field as int;
      && m'(header) == (if |links| == 1 then 0 else m(a))
      && m'(header + 1) == (if |links| == 1 then 0 else m(a + 1))
      && forall x: nat :: x != header && x != header + 1 ==> m'(x) == m(x)
  {
    var w := NextHead(m, field, links);
    StoreInBytes(m, header, w);
    WordInBytes(m, 16 * links[0] as int + field as int, w);
  }

  class Cpu {
    var memory: Memory
    var zf: bool

    constructor (m: Memory)
      ensures memory == m
    {
      memory := m;
      zf := false;
    }

    /** Inserts the link named in the table at the end of the queue. */
    method QueueTailIn(table: array<word>, ghost links: seq<word>)
      requires table.Length == 4 && IsQueue(memory, Header(table[..]), table[3], links)
      requires table[2] != 0 && table[2] !in links && Apart(Header(table[..]), Cell(table[2], table[3]))
      modifies this`memory
      ensures IsQueue(memory, Header(table[..]), table[3], links + [table[2]])
      ensures LinkedBack(old(memory), Header(table[..]), table[3], links)
        ==> LinkedBack(memory, Header(table[..]), table[3], links + [table[2]])
      ensures forall link: word :: link !in links && Apart(Header(table[..]), Cell(link, table[3])) ==>
        Forward(memory, table[3], link) == old(Forward(memory, table[3], link))
      ensures KeptElsewhere(old(memory), memory, Header(table[..]), table[3], links + [table[2]])
      ensures var h: nat, t := 16 * table[1] as int + table[0] as int, table[2];
        && memory(h + 2) as int == t % 0x100 && memory(h + 3) as int == t / 0x100
        && (links == [] ==>
             && memory(h) as int == t % 0x100 && memory(h + 1) as int == t / 0x100
             && forall x: nat :: x !in {h, h + 1, h + 2, h + 3} ==> memory(x) == old(memory)(x))
        && (links != [] ==> var last := links[|links| - 1];
             var a: nat, b: nat := 16 * last as int + table[3] as int, 16 * t as int + table[3] as int + 2;
             && memory(a) as int == t % 0x100 && memory(a + 1) as int == t / 0x100
             && memory(b) as int == last % 0x100 && memory(b + 1) as int == last / 0x100
             && forall x: nat :: x !in {a, a + 1, b, b + 1, h + 2, h + 3} ==> memory(x) == old(memory)(x))
    {
      hide IsQueue;
      hide LinkedBack;
      hide KeptElsewhere;
      hide StoreWord;
      var queueAddress := table[1] as int * 0x10 + table[0] as int;
      var queueHead := Word(memory, queueAddress);
      ghost var f, m := table[3], memory;
      HeaderNames(memory, queueAddress, f, links);
      if queueHead == 0 {
        memory := StoreWord(memory, queueAddress, table[2]);
      } else {
        var queueTail := Word(memory, queueAddress + 2);
        memory := StoreWord(memory, Cell(queueTail, table[3]), table[2]);
        memory := StoreWord(memory, Cell(table[2], table[3]) + 2, queueTail);
      }
      memory := StoreWord(memory, queueAddress + 2, table[2]);
      assert Insertion(m, memory, queueAddress, f, links, table[2]);
      InsertionAppends(m, memory, queueAddress, f, links, table[2]);
      InsertionInBytes(m, memory, queueAddress, f, links, table[2]);
      InsertionKeeps(m, memory, queueAddress, f, links, table[2]);
    }

    /** Makes the second link the head, or clears the queue if there is none. */
    method NameNextHead(table: array<word>, queueAddress: nat, queueHead: word, ghost links: seq<word>)
      requires table.Length == 4 && links != [] && queueHead == links[0] && Distinct(links)
      requires Word(memory, queueAddress + 2) == links[|links| - 1]
      modifies this`memory
      ensures memory == StoreWord(old(memory), queueAddress, NextHead(old(memory), table[3], links))
    {
      hide StoreWord;
      AtTail(links, 0);
      if queueHead == Word(memory, queueAddress + 2) {
        memory := StoreWord(memory, queueAddress, 0);
      } else {
        memory := StoreWord(memory, queueAddress, Word(memory, Cell(queueHead, table[3])));
      }
    }

    /** Removes the first link and stores it in the table. */
    method QueueHeadOut(table: array<word>, ghost links: seq<word>)
      requires table.Length == 4 && IsQueue(memory, Header(table[..]), table[3], links)
      modifies this, table
      ensures zf == (links == [])
      ensures links == [] ==> memory == old(memory) && table[..] == old(table[..])
      ensures KeptElsewhere(old(memory), memory, Header(table[..]), table[3], [])
      ensures links != [] ==> table[..] == old(table[..])[2 := links[0]]
      ensures links != [] ==> IsQueue(memory, Header(table[..]), table[3], links[1..])
      ensures old(LinkedBack(memory, Header(table[..]), table[3], links)) && links != []
        ==> LinkedBack(memory, Header(table[..]), table[3], links[1..])
      ensures forall link: word :: Apart(Header(table[..]), Cell(link, table[3])) ==>
        Forward(memory, table[3], link) == old(Forward(memory, table[3], link))
      ensures links != [] ==>
        var h: nat, a: nat := 16 * table[1] as int + table[0] as int, 16 * links[0] as int + table[3] as int;
        && memory(h) == (if |links| == 1 then 0 else old(memory)(a))
        && memory(h + 1) == (if |links| == 1 then 0 else old(memory)(a + 1))
        && forall x: nat :: x != h && x != h + 1 ==> memory(x) == old(memory)(x)
    {
      hide KeptElsewhere;
      hide StoreWord;
      hide Word;
      var queueAddress := table[1] as int * 0x10 + table[0] as int;
      var queueHead := Word(memory, queueAddress);
      ghost var f, m := table[3], memory;
      KeptSame(memory, queueAddress, f);
      HeaderNames(memory, queueAddress, f, links);
      assert Distinct(links);
      hide IsQueue;
      hide LinkedBack;
      hide Distinct;
      hide NextHead;
      if queueHead == 0 {
        zf := true;
      } else {
        table[2] := queueHead;
        NameNextHead(table, queueAddress, queueHead, links);
        zf := false;
        assert Header(table[..]) == queueAddress && table[3] == f;
        BeheadingDrops(m, queueAddress, f, links);
        BeheadingInBytes(m, queueAddress, f, links);
      }
    }

    /** Chains `current` past the link `next` that is to be removed. */
    method ChainPast(table: array<word>, queueAddress: nat, current: word, next: word, queueTail: word)
      requires table.Length == 4 && Apart(queueAddress, Cell(current, table[3]))
      modifies this`memory
      ensures memory == Chained(old(memory), queueAddress, table[3], current, next, queueTail)
      ensures KeptElsewhere(old(memory), memory, queueAddress, table[3],
        [current, old(Forward(memory, table[3], next))])
    {
      hide StoreWord;
      hide KeptElsewhere;
      ghost var m, f := memory, table[3];
      WordAfterStore(m, Cell(current, f), Forward(m, f, next), Cell(current, f));
      WordAfterStore(m, Cell(current, f), Forward(m, f, next), Cell(next, f));
      ChainedKeeps(m, queueAddress, f, current, next, queueTail);
      memory := StoreWord(memory, Cell(current, table[3]), Word(memory, Cell(next, table[3])));
      if next == queueTail {
        memory := StoreWord(memory, queueAddress + 2, current);
      } else {
        var following := Word(memory, Cell(next, table[3]));
        memory := StoreWord(memory, Cell(following, table[3]) + 2, Word(memory, Cell(current, table[3])));
      }
    }

    /** The search for the link, from the head to the tail. */
    method SearchAndUnlink(table: array<word>, queueAddress: nat, queueHead: word, queueTail: word,
                           ghost links: seq<word>)
      requires table.Length == 4 && queueAddress == Header(table[..])
      requires IsQueue(memory, queueAddress, table[3], links) && links != []
      requires queueHead == links[0] && queueTail == links[|links| - 1] && queueHead != table[2]
      modifies this`memory
      ensures var v, v' := old(ViewOf(memory, queueAddress, table[3])), ViewOf(memory, queueAddress, table[3]);
        Searched(v, v', links, table[2],
          old(KeepsHeader(memory, queueAddress, table[3], Forward(memory, table[3], table[2]))))
      ensures KeptElsewhere(old(memory), memory, queueAddress, table[3],
        links + [old(Forward(memory, table[3], table[2]))])
    {
      KeptSame(memory, queueAddress, table[3]);
      hide KeptElsewhere;
      hide Distinct;
      hide Searched;
      hide Relinked;
      hide SameLinks;
      hide KeepsHeader;
      hide StoreWord;
      hide Chained;
      ghost var f, target, last := table[3], table[2], |links| - 1;
      ghost var v := ViewOf(memory, queueAddress, f);
      ghost var i := IndexOf(links, target);
      ghost var j := 0;
      ghost var was, changed := memory, links + [Forward(memory, f, target)];
      KeptByFewer(was, memory, queueAddress, f, [], changed);
      var current := queueHead;
      while true
        invariant KeptElsewhere(was, memory, queueAddress, f, changed)
        invariant 0 <= j <= last && current == links[j]
        invariant j < i ==> memory == was
        invariant j >= i ==> Walked(v, ViewOf(memory, queueAddress, f), links, i)
        decreases last - j
      {
        ghost var before, kept := ViewOf(memory, queueAddress, f),
          KeepsHeader(memory, queueAddress, f, Forward(memory, f, target));
        if Apart(queueAddress, Cell(Forward(memory, f, target), f)) {
          ApartKeepsHeader(memory, queueAddress, f, Forward(memory, f, target));
        }
        AtTail(links, j);
        assert links[j] in links;
        assert j < last ==> before.forward(links[j]) == links[j + 1];
        var next := Word(memory, Cell(current, table[3]));
        assert next == before.forward(links[j]);
        if next == table[2] {
          ghost var m := memory;
          assert Forward(m, f, next) == v.forward(target);
          ChainPast(table, queueAddress, current, next, queueTail);
          ChainedRelinks(m, queueAddress, f, current, next, queueTail);
          assert current in changed && Forward(m, f, next) in changed;
          KeptByFewer(m, memory, queueAddress, f, [current, Forward(m, f, next)], changed);
          KeptTwice(was, m, memory, queueAddress, f, changed);
        }
        ghost var after := ViewOf(memory, queueAddress, f);
        if current == queueTail {
          RoundAtTail(v, before, after, queueAddress, f, links, target, kept);
          SearchedEither(v, after, links, target, kept, KeepsHeader(was, queueAddress, f, Forward(was, f, target)));
          break;
        }
        RoundInside(v, before, after, queueAddress, f, links, target, j, kept);
        current := next;
        j := j + 1;
      }
    }

    /** Removes the link named in the table, wherever it is. */
    method QueueOut(table: array<word>, ghost links: seq<word>)
      requires table.Length == 4 && IsQueue(memory, Header(table[..]), table[3], links)
      modifies this
      ensures zf == (links == [])
      ensures links == [] ==> memory == old(memory)
      ensures table[2] in links ==>
        (IsQueue(memory, Header(table[..]), table[3], Without(links, table[2]))
         <==> !old(SelfLinkedTail(memory, table[3], links, table[2])))
      ensures old(SelfLinkedTail(memory, table[3], links, table[2])) ==>
        IsQueue(memory, Header(table[..]), table[3], links)
      ensures table[2] !in links && links != [] ==>
        (IsQueue(memory, Header(table[..]), table[3], links)
         <==> !old(StrayWrite(memory, Header(table[..]), table[3], links, table[2])))
      ensures old(LinkedBack(memory, Header(table[..]), table[3], links)) && table[2] in links ==>
        (LinkedBack(memory, Header(table[..]), table[3], Without(links, table[2]))
         <==> table[2] == links[0] || table[2] == links[|links| - 1])
      ensures old(LinkedBack(memory, Header(table[..]), table[3], links)) && links != [] && table[2] !in links ==>
        (LinkedBack(memory, Header(table[..]), table[3], links)
         <==> !(old(Forward(memory, table[3], links[|links| - 1])) == table[2]
                && old(Forward(memory, table[3], table[2])) in links[1..]))
      ensures links != [] && table[2] == links[0] ==>
        memory == StoreWord(old(memory), Header(table[..]), NextHead(old(memory), table[3], links))
      ensures var j := IndexOf(links, table[2]); 0 < j < |links| ==>
        Forward(memory, table[3], links[j - 1]) == old(Forward(memory, table[3], table[2]))
      ensures var j := IndexOf(links, table[2]); 0 < j < |links| - 1 ==>
        Backward(memory, table[3], links[j + 1]) == links[j + 1]
      ensures KeptElsewhere(old(memory), memory, Header(table[..]), table[3],
                            links + [old(Forward(memory, table[3], table[2]))])
    {
      KeptSame(memory, Header(table[..]), table[3]);
      hide KeptElsewhere;
      hide Distinct;
      hide Searched;
      hide StrayWrite;
      hide SameLinks;
      hide IndexOf;
      hide StoreWord;
      hide NextHead;
      var queueAddress := table[1] as int * 0x10 + table[0] as int;
      var queueHead := Word(memory, queueAddress);
      ghost var m, f, target := memory, table[3], table[2];
      HeaderNames(memory, queueAddress, f, links);
      if queueHead == 0 {
        zf := true;
      } else {
        var queueTail := Word(memory, queueAddress + 2);
        if queueHead == table[2] {
          NameNextHead(table, queueAddress, queueHead, links);
          BeheadingDrops(m, queueAddress, f, links);
          IndexOfAt(links, 0);
          AtTail(links, 0);
          assert Without(links, target) == links[1..];
        } else {
          SearchAndUnlink(table, queueAddress, queueHead, queueTail, links);
          SearchedIsRemoval(m, memory, queueAddress, f, links, target);
          SearchedWords(m, memory, queueAddress, f, links, target,
                        KeepsHeader(m, queueAddress, f, Forward(m, f, target)));
        }
        zf := false;
      }
      if queueHead == 0 || queueHead == table[2] {
        KeptByFewer(m, memory, queueAddress, f, [], links + [Forward(m, f, target)]);
      }
    }
  }

  /** A removal and the bytes it writes. */
  method QueueOutInBytes(cpu: Cpu, table: array<word>, ghost links: seq<word>)
    requires table.Length == 4 && IsQueue(cpu.memory, Header(table[..]), table[3], links)
    modifies cpu
    ensures links != [] && table[2] == links[0] ==>
      var h: nat, a: nat := 16 * table[1] as int + table[0] as int, 16 * table[2] as int + table[3] as int;
      && cpu.memory(h) == (if |links| == 1 then 0 else old(cpu.memory)(a))
      && cpu.memory(h + 1) == (if |links| == 1 then 0 else old(cpu.memory)(a + 1))
      && forall x: nat :: x != h && x != h + 1 ==> cpu.memory(x) == old(cpu.memory)(x)
    ensures var j := IndexOf(links, table[2]); 0 < j < |links| ==>
      var h: nat, m, m' := 16 * table[1] as int + table[0] as int, old(cpu.memory), cpu.memory;
      var a: nat, b: nat := 16 * links[j - 1] as int + table[3] as int, 16 * table[2] as int + table[3] as int;
      var selfLinked := m(b) as int == table[2] % 0x100 && m(b + 1) as int == table[2] / 0x100;
      var tail := if j == |links| - 1 && !selfLinked then links[j - 1] else links[|links| - 1];
      && m'(a) == m(b) && m'(a + 1) == m(b + 1)
      && m'(h) as int == links[0] % 0x100 && m'(h + 1) as int == links[0] / 0x100
      && m'(h + 2) as int == tail % 0x100 && m'(h + 3) as int == tail / 0x100
    ensures var j := IndexOf(links, table[2]); 0 < j < |links| - 1 ==>
      var c: nat := 16 * links[j + 1] as int + table[3] as int + 2;
      cpu.memory(c) as int == links[j + 1] % 0x100 && cpu.memory(c + 1) as int == links[j + 1] / 0x100
  {
    hide IsQueue;
    hide LinkedBack;
    hide KeptElsewhere;
    hide StrayWrite;
    hide StoreWord;
    hide NextHead;
    hide SelfLinkedTail;
    hide Word;
    hide Without;
    hide IndexOf;
    ghost var m, h, f, link := cpu.memory, Header(table[..]), table[3], table[2];
    cpu.QueueOut(table, links);
    if links != [] && links[0] == link {
      BeheadingInBytes(m, h, f, links);
    }
    if 0 < IndexOf(links, link) < |links| {
      RemainingEnds(m, cpu.memory, h, f, links, link);
      RemovalInBytes(m, cpu.memory, h, f, links, link);
    }
  }

  /** A table for a header at address 0 and links without a field offset. */
  ghost predicate ZeroTable(table: array<word>)
    reads table
  {
    table.Length == 4 && table[0] == 0 && table[1] == 0 && table[3] == 0
  }

  method Insert(cpu: Cpu, table: array<word>, ghost links: seq<word>, link: word)
    requires ZeroTable(table) && IsQueue(cpu.memory, 0, 0, links) && link != 0 && link !in links
    modifies cpu`memory, table
    ensures ZeroTable(table) && IsQueue(cpu.memory, 0, 0, links + [link])
    ensures 1 !in links ==> Forward(cpu.memory, 0, 1) == old(Forward(cpu.memory, 0, 1))
  {
    table[2] := link;
    assert Header(table[..]) == 0;
    cpu.QueueTailIn(table, links);
  }

  /** Removing the first of two links leaves the removed one naming the other. */
  method InsertTwoTakeBoth(cpu: Cpu, table: array<word>)
    requires ZeroTable(table) && IsQueue(cpu.memory, 0, 0, [])
    modifies cpu, table
    ensures ZeroTable(table) && IsQueue(cpu.memory, 0, 0, []) && Forward(cpu.memory, 0, 1) == 2
  {
    hide IsQueue;
    hide KeptElsewhere;
    hide LinkedBack;
    assert [] + [1] == [1] && [1] + [2] == [1, 2] && [1, 2][1..] == [2] && [2][1..] == [];
    Insert(cpu, table, [], 1);
    Insert(cpu, table, [1], 2);
    FirstNamesSecond(cpu.memory);
    assert Header(table[..]) == 0;
    cpu.QueueHeadOut(table, [1, 2]);
    assert Header(table[..]) == 0;
    cpu.QueueHeadOut(table, [2]);
  }

  lemma FirstNamesSecond(m: Memory)
    requires IsQueue(m, 0, 0, [1, 2])
    ensures Forward(m, 0, 1) == 2 && Apart(0, Cell(1, 0))
  {
    var links: seq<word> := [1, 2];
    assert ViewOf(m, 0, 0).forward(links[0]) == links[1];
  }

  /** A run of queue instructions on an empty queue after which the unused forward
    word of the last link names that link: it came to do so when the link after
    it was removed. */
  method TailCanSelfLink(cpu: Cpu, table: array<word>)
    requires ZeroTable(table) && IsQueue(cpu.memory, 0, 0, [])
    modifies cpu, table
    ensures ZeroTable(table) && IsQueue(cpu.memory, 0, 0, [3, 2])
    ensures SelfLinkedTail(cpu.memory, 0, [3, 2], 2)
  {
    InsertTwoTakeBoth(cpu, table);
    Insert(cpu, table, [], 3);
    assert [] + [3] == [3];
    Insert(cpu, table, [3], 2);
    assert [3] + [2] == [3, 2];
    Insert(cpu, table, [3, 2], 1);
    assert [3, 2] + [1] == [3, 2, 1];
    table[2] := 1;
    RemoveLast(cpu, table, [3, 2, 1]);
    assert [3, 2, 1][..2] == [3, 2];
  }

  /** The instruction that then is to remove the last link leaves it in the queue. */
  method RemovalCanFail(cpu: Cpu, table: array<word>) returns (ghost before: Memory)
    requires ZeroTable(table) && IsQueue(cpu.memory, 0, 0, [])
    modifies cpu, table
    ensures ZeroTable(table) && table[2] == 2 && !cpu.zf
    ensures IsQueue(before, 0, 0, [3, 2]) && SelfLinkedTail(before, 0, [3, 2], 2)
    ensures KeptElsewhere(before, cpu.memory, 0, 0, [3, 2])
    ensures IsQueue(cpu.memory, 0, 0, [3, 2]) && !IsQueue(cpu.memory, 0, 0, [3])
  {
    TailCanSelfLink(cpu, table);
    table[2] := 2;
    before := cpu.memory;
    assert Header(table[..]) == 0 && Without([3, 2], 2) == [3];
    cpu.QueueOut(table, [3, 2]);
    KeptByFewer(before, cpu.memory, 0, 0, [3, 2] + [Forward(before, 0, 2)], [3, 2]);
  }

  method RemoveLast(cpu: Cpu, table: array<word>, ghost links: seq<word>)
    requires ZeroTable(table) && IsQueue(cpu.memory, 0, 0, links)
    requires |links| >= 2 && table[2] == links[|links| - 1]
    modifies cpu
    ensures old(Forward(cpu.memory, 0, table[2])) != table[2] ==> IsQueue(cpu.memory, 0, 0, links[..|links| - 1])
    ensures old(Forward(cpu.memory, 0, table[2])) == table[2] ==> IsQueue(cpu.memory, 0, 0, links)
    ensures Forward(cpu.memory, 0, links[|links| - 2]) == old(Forward(cpu.memory, 0, table[2]))
  {
    WithoutAt(links, |links| - 1);
    assert Header(table[..]) == 0;
    cpu.QueueOut(table, links);
    assert Without(links, links[|links| - 1]) == links[..|links| - 1];
  }
}
