/**
 * Flashcard sets and their editing modal (src/ts/flashcards.ts:7-130), and the "Create
 * Flashcard Set" command that builds a set from the selected text
 * (src/ts/flashcards.ts:280-303).
 *
 * A card's `[front, back]` array is an object: the modal finds it again with `indexOf`,
 * which compares identities, and edits it in place. It is the class Flashcard here. The
 * modal's card container is the sequence of its children, inserter buttons and card
 * settings, in document order.
 */
module Flashcards {
  import opened Wrappers
  import opened Text
  import opened Patterns
  import opened SelectionParser

  /** The array `[front, back]` of one card. */
  class Flashcard {
    var front: string
    var back: string

    constructor(front: string, back: string)
      ensures this.front == front && this.back == back
    {
      this.front := front;
      this.back := back;
    }
  }

  /** The text the cards hold, in order. */
  function Pairs(cards: seq<Flashcard>): (ps: seq<Pair>)
    reads cards
    ensures |ps| == |cards|
  {
    if cards == [] then [] else [Pair(cards[0].front, cards[0].back)] + Pairs(cards[1..])
  }

  lemma {:induction false} PairsAt(cards: seq<Flashcard>)
    ensures |Pairs(cards)| == |cards|
    ensures forall i | 0 <= i < |cards| :: Pairs(cards)[i] == Pair(cards[i].front, cards[i].back)
  {
    if cards != [] {
      PairsAt(cards[1..]);
      forall i | 1 <= i < |cards| ensures Pairs(cards)[i] == Pair(cards[i].front, cards[i].back) {
        assert Pairs(cards)[i] == Pairs(cards[1..])[i - 1];
      }
    }
  }

  /** No card object occurs twice. */
  predicate Distinct<T(==)>(a: seq<T>) {
    forall i, j | 0 <= i < j < |a| :: a[i] != a[j]
  }

  /** `Array.prototype.indexOf`: the first index holding x, or -1. */
  function IndexOf<T(==)>(a: seq<T>, x: T): (r: int)
    ensures -1 <= r < |a|
    ensures r == -1 <==> x !in a
    ensures 0 <= r ==> a[r] == x && x !in a[..r]
  {
    if a == [] then -1
    else if a[0] == x then 0
    else
      var i := IndexOf(a[1..], x);
      if i == -1 then -1
      else
        assert a[..i + 1] == [a[0]] + a[1..][..i];
        i + 1
  }

  /** Among distinct elements, indexOf finds each at its own place. */
  lemma IndexOfDistinct<T>(a: seq<T>, i: nat)
    requires Distinct(a) && i < |a|
    ensures IndexOf(a, a[i]) == i
  {
    assert a[i] in a;
  }

  /** Where `splice` starts: a negative start counts from the end; both are clamped to the array. */
  function SpliceStart(len: nat, start: int): (s: nat)
    ensures s <= len
    ensures 0 <= start <= len ==> s == start
    ensures -(len as int) <= start < 0 ==> s as int == len as int + start
  {
    if start < 0 then (if len + start < 0 then 0 else len + start)
    else if start > len then len
    else start
  }

  /**
   * `Array.prototype.splice(start, deleteCount, ...items)` as the array it leaves: the
   * deleted run is clamped to what lies after the start.
   */
  function Splice<T>(a: seq<T>, start: int, deleteCount: int, items: seq<T>): (r: seq<T>)
    ensures var s := SpliceStart(|a|, start);
      var d := if deleteCount <= 0 then 0 else if deleteCount > |a| - s then |a| - s else deleteCount;
      && |r| == |a| - d + |items|
      && r[..s] == a[..s] && r[s..s + |items|] == items && r[s + |items|..] == a[s + d..]
  {
    var s := SpliceStart(|a|, start);
    var d := if deleteCount < 0 then 0 else if deleteCount > |a| - s then |a| - s else deleteCount;
    a[..s] + items + a[s + d..]
  }

  /** Splicing in at an index within the array puts the items there and moves the rest up. */
  lemma SpliceInserts<T>(a: seq<T>, i: nat, items: seq<T>)
    requires i <= |a|
    ensures |Splice(a, i, 0, items)| == |a| + |items|
    ensures forall k | 0 <= k < i :: Splice(a, i, 0, items)[k] == a[k]
    ensures forall k | 0 <= k < |items| :: Splice(a, i, 0, items)[i + k] == items[k]
    ensures forall k | i <= k < |a| :: Splice(a, i, 0, items)[k + |items|] == a[k]
  {
  }

  /** Deleting one element at an index within the array keeps every other element, in order. */
  lemma SpliceRemovesOne<T>(a: seq<T>, i: nat)
    requires i < |a|
    ensures Splice(a, i, 1, []) == a[..i] + a[i + 1..]
    ensures multiset(Splice(a, i, 1, [])) + multiset{a[i]} == multiset(a)
  {
    assert a == a[..i] + [a[i]] + a[i + 1..];
  }

  /** `splice(-1, 1)`, what removing an element indexOf does not find would do: the last element goes. */
  lemma SpliceMinusOne<T>(a: seq<T>)
    requires a != []
    ensures Splice(a, -1, 1, []) == a[..|a| - 1]
  {
  }

  /** `splice(indexOf(x), 1)`: x goes when it is there, and the last element when it is not. */
  lemma SpliceAtIndexOf<T>(a: seq<T>, x: T)
    ensures x in a ==> Splice(a, IndexOf(a, x), 1, []) == a[..IndexOf(a, x)] + a[IndexOf(a, x) + 1..]
    ensures x !in a ==> Splice(a, IndexOf(a, x), 1, []) == if a == [] then [] else a[..|a| - 1]
  {
    if x in a {
      SpliceRemovesOne(a, IndexOf(a, x));
    } else if a != [] {
      SpliceMinusOne(a);
    }
  }

  /** Removing the element at i twice removes the elements at i and i + 1. */
  lemma RemoveTwice<T>(a: seq<T>, i: nat)
    requires i + 1 < |a|
    ensures var once := a[..i] + a[i + 1..]; once[..i] + once[i + 1..] == a[..i] + a[i + 2..]
  {
    var once := a[..i] + a[i + 1..];
    assert once[..i] == a[..i] && once[i + 1..] == a[i + 2..];
  }

  /** A child of the card container: an inserter button, or the setting that edits one card. */
  datatype Child = Inserter | Setting(card: Flashcard)

  /**
   * The container the modal keeps: an inserter, then each card's setting followed by an
   * inserter (src/ts/flashcards.ts:59-63).
   */
  function Layout(cards: seq<Flashcard>): (r: seq<Child>)
    ensures |r| == 2 * |cards| + 1
  {
    if cards == [] then [Inserter] else [Inserter, Setting(cards[0])] + Layout(cards[1..])
  }

  /** Inserters sit at the even positions, and card k's setting at position 2k + 1. */
  lemma {:induction false} LayoutAt(cards: seq<Flashcard>)
    ensures |Layout(cards)| == 2 * |cards| + 1
    ensures forall j | 0 <= j < |Layout(cards)| ::
      Layout(cards)[j] == if j % 2 == 0 then Inserter else Setting(cards[j / 2])
  {
    if cards != [] {
      LayoutAt(cards[1..]);
      forall j | 2 <= j < |Layout(cards)|
        ensures Layout(cards)[j] == if j % 2 == 0 then Inserter else Setting(cards[j / 2])
      {
        assert Layout(cards)[j] == Layout(cards[1..])[j - 2];
        assert (j - 2) / 2 == j / 2 - 1 && (j - 2) % 2 == j % 2;
      }
    }
  }

  /** An inserter of the layout is inserter k, at position 2k, and follows card k - 1's setting. */
  lemma LayoutInserter(cards: seq<Flashcard>, pos: nat)
    requires pos < |Layout(cards)| && Layout(cards)[pos] == Inserter
    ensures pos % 2 == 0 && pos / 2 <= |cards|
    ensures 0 < pos ==> Layout(cards)[pos - 1] == Setting(cards[pos / 2 - 1])
  {
    LayoutAt(cards);
  }

  /** A setting of the layout is card k's, at position 2k + 1, and follows inserter k. */
  lemma LayoutSetting(cards: seq<Flashcard>, pos: nat)
    requires pos < |Layout(cards)| && Layout(cards)[pos].Setting?
    ensures pos % 2 == 1 && pos / 2 < |cards|
    ensures Layout(cards)[pos] == Setting(cards[pos / 2]) && Layout(cards)[pos - 1] == Inserter
  {
    LayoutAt(cards);
  }

  /** A card inserted at index k adds an inserter and its setting in front of inserter k. */
  lemma {:induction false} LayoutInsert(cards: seq<Flashcard>, k: nat, c: Flashcard)
    requires k <= |cards|
    ensures Layout(cards[..k] + [c] + cards[k..]) == Layout(cards)[..2 * k] + [Inserter, Setting(c)] + Layout(cards)[2 * k..]
  {
    var n := cards[..k] + [c] + cards[k..];
    if k == 0 {
      assert n[1..] == cards;
    } else {
      var t := cards[1..];
      assert n[0] == cards[0] && n[1..] == t[..k - 1] + [c] + t[k - 1..] by {
        assert cards[..k] == [cards[0]] + t[..k - 1];
        assert cards[k..] == t[k - 1..];
      }
      LayoutInsert(t, k - 1, c);
      PrependedSplice([Inserter, Setting(cards[0])], Layout(t), 2 * (k - 1), [Inserter, Setting(c)]);
    }
  }

  /** Helper: splicing into the tail of h + l is splicing into h + l, |h| further on. */
  lemma PrependedSplice<T>(h: seq<T>, l: seq<T>, i: nat, mid: seq<T>)
    requires i <= |l|
    ensures h + (l[..i] + mid + l[i..]) == (h + l)[..|h| + i] + mid + (h + l)[|h| + i..]
  {
    assert (h + l)[..|h| + i] == h + l[..i];
    assert (h + l)[|h| + i..] == l[i..];
  }

  /** Removing card k removes inserter k and the card's setting after it. */
  lemma {:induction false} LayoutRemove(cards: seq<Flashcard>, k: nat)
    requires k < |cards|
    ensures Layout(cards[..k] + cards[k + 1..]) == Layout(cards)[..2 * k] + Layout(cards)[2 * k + 2..]
  {
    var n := cards[..k] + cards[k + 1..];
    if k == 0 {
      assert n == cards[1..];
    } else {
      var t := cards[1..];
      LayoutRemove(t, k - 1);
      assert cards[..k] == [cards[0]] + t[..k - 1];
      assert cards[k + 1..] == t[k..];
      assert n == [cards[0]] + (t[..k - 1] + t[k..]);
      assert Layout(cards) == [Inserter, Setting(cards[0])] + Layout(t);
    }
  }

  /**
   * `parent.insertBefore(node, ref)` for a node already in the parent: the child at i
   * moves to just before the child at j.
   */
  function MoveBefore(cs: seq<Child>, i: nat, j: nat): (r: seq<Child>)
    requires i < |cs| && j < |cs| && i != j
    ensures |r| == |cs|
  {
    if i < j then
      cs[..i] + cs[i + 1..j] + [cs[i]] + cs[j..]
    else
      cs[..j] + [cs[i]] + cs[j..i] + cs[i + 1..]
  }

  /**
   * What insertBefore promises: the node ends up right in front of the reference node, and
   * with the node taken out, every other child is where it was, in the same order.
   */
  lemma MoveBeforeMoves(cs: seq<Child>, i: nat, j: nat)
    requires i < |cs| && j < |cs| && i != j
    ensures var r, k := MoveBefore(cs, i, j), if i < j then j - 1 else j;
      && |r| == |cs| && k + 1 < |r|
      && r[k] == cs[i] && r[k + 1] == cs[j]
      && r[..k] + r[k + 1..] == cs[..i] + cs[i + 1..]
  {
    if i < j {
      var a, b, c := cs[..i], cs[i + 1..j], cs[j..];
      assert cs[i + 1..] == b + c;
      MovedForward(a, cs[i], b, c);
    } else {
      var a, b, c := cs[..j], cs[j..i], cs[i + 1..];
      assert cs[..i] == a + b;
      MovedBack(a, cs[i], b, c);
    }
  }

  /** insertBefore neither loses nor duplicates a child. */
  lemma MoveBeforeKeepsChildren(cs: seq<Child>, i: nat, j: nat)
    requires i < |cs| && j < |cs| && i != j
    ensures multiset(MoveBefore(cs, i, j)) == multiset(cs)
  {
    MoveBeforeMoves(cs, i, j);
    TakeOut(MoveBefore(cs, i, j), if i < j then j - 1 else j);
    TakeOut(cs, i);
  }

  /** Helper: a sequence holds what it holds without its element at k, plus that element. */
  lemma TakeOut<T>(s: seq<T>, k: nat)
    requires k < |s|
    ensures multiset(s) == multiset(s[..k] + s[k + 1..]) + multiset{s[k]}
  {
    assert s == s[..k] + [s[k]] + s[k + 1..];
  }

  /** x moved forward from between a and b to between b and c. */
  lemma MovedForward<T>(a: seq<T>, x: T, b: seq<T>, c: seq<T>)
    requires c != []
    ensures var r, k := a + b + [x] + c, |a| + |b|;
      r[k] == x && r[k + 1] == c[0] && r[..k] + r[k + 1..] == a + b + c
  {
    var r, k := a + b + [x] + c, |a| + |b|;
    assert r[..k] == a + b && r[k + 1..] == c;
  }

  /** x moved back from between b and c to between a and b. */
  lemma MovedBack<T>(a: seq<T>, x: T, b: seq<T>, c: seq<T>)
    requires b != []
    ensures var r, k := a + [x] + b + c, |a|;
      r[k] == x && r[k + 1] == b[0] && r[..k] + r[k + 1..] == a + b + c
  {
    var r, k := a + [x] + b + c, |a|;
    assert r[..k] == a && r[k + 1..] == b + c;
  }

  const DefaultSetName := "My Flashcard Set"
  const TitlePrefix := "Editing Flashcard Set: "

  /**
   * A flashcard set (src/ts/flashcards.ts:7-15). Its id is the creation time, read from
   * the clock only when the id argument is the default -1; any other argument is not
   * stored, and the id stays unassigned.
   */
  class FlashcardSet {
    var id: Option<int>
    var name: string
    var flashcards: seq<Flashcard>

    constructor(name: string, flashcards: seq<Flashcard>, id: int, now: int)
      ensures this.name == name && this.flashcards == flashcards
      ensures this.id == if id == -1 then Some(now) else None
    {
      this.name := name;
      this.flashcards := flashcards;
      if id == -1 {
        this.id := Some(now);
      } else {
        this.id := None;
      }
    }
  }

  /** The modal that edits a flashcard set (src/ts/flashcards.ts:17-130). */
  class FlashcardSetModal {
    const flashcardSet: FlashcardSet
    var container: seq<Child>
    var title: string

    /** The container mirrors the set's cards, which are distinct objects. */
    predicate Valid()
      reads this, flashcardSet
    {
      container == Layout(flashcardSet.flashcards) && Distinct(flashcardSet.flashcards)
    }

    /**
     * The constructor (src/ts/flashcards.ts:20-64): the title names the set, and the
     * container gets an inserter before each card's setting and one after the last.
     */
    constructor(flashcardSet: FlashcardSet)
      requires Distinct(flashcardSet.flashcards)
      ensures this.flashcardSet == flashcardSet && Valid()
      ensures title == TitlePrefix + flashcardSet.name
    {
      this.flashcardSet := flashcardSet;
      title := TitlePrefix + flashcardSet.name;
      container := [];
      new;
      var cards := flashcardSet.flashcards;
      var i := 0;
      while i < |cards|
        invariant 0 <= i <= |cards|
        invariant container + [Inserter] == Layout(cards[..i])
        invariant title == TitlePrefix + flashcardSet.name
      {
        CreateFlashcardInserter();
        CreateFlashcardSettingEl(cards[i]);
        LayoutInsert(cards[..i], i, cards[i]);
        LayoutAt(cards[..i]);
        assert cards[..i][..i] + [cards[i]] + cards[..i][i..] == cards[..i + 1];
        i := i + 1;
      }
      CreateFlashcardInserter();
      assert cards[..i] == cards;
    }

    /** `createFlashcardInserter` (src/ts/flashcards.ts:101-104): a new inserter at the end. */
    method CreateFlashcardInserter()
      modifies this
      ensures container == old(container) + [Inserter] && title == old(title)
    {
      container := container + [Inserter];
    }

    /** `createFlashcardSettingEl` (src/ts/flashcards.ts:66-97): a new setting for the card at the end. */
    method CreateFlashcardSettingEl(card: Flashcard)
      modifies this
      ensures container == old(container) + [Setting(card)] && title == old(title)
    {
      container := container + [Setting(card)];
    }

    /**
     * A click on the inserter at position pos (src/ts/flashcards.ts:106-113): a fresh
     * `["", ""]` goes into the array after the card of the previous sibling, or first when
     * there is none, and its setting and a new inserter go in front of the clicked one.
     */
    method ClickInserter(pos: nat)
      requires Valid() && pos < |container| && container[pos] == Inserter
      modifies this, flashcardSet
      ensures Valid() && pos % 2 == 0
      ensures |flashcardSet.flashcards| == |old(flashcardSet.flashcards)| + 1
      ensures flashcardSet.flashcards == old(flashcardSet.flashcards)[..pos / 2] + [flashcardSet.flashcards[pos / 2]] + old(flashcardSet.flashcards)[pos / 2..]
      ensures fresh(flashcardSet.flashcards[pos / 2])
      ensures flashcardSet.flashcards[pos / 2].front == "" && flashcardSet.flashcards[pos / 2].back == ""
      ensures container == old(container)[..pos] + [Inserter, Setting(flashcardSet.flashcards[pos / 2])] + old(container)[pos..]
      ensures flashcardSet.name == old(flashcardSet.name) && flashcardSet.id == old(flashcardSet.id) && title == old(title)
    {
      var cards := flashcardSet.flashcards;
      var idx := InsertIndex(container, cards, pos);
      InsertIndexIsRank(cards, pos);
      var card := InsertEmptyCard(idx);
      PlaceNewCard(pos, flashcardSet.flashcards[idx]);
      LayoutGrowsAt(cards, pos, card);
      DistinctInsert(cards, idx, card);
    }

    /**
     * The page side of a click on the inserter at pos (src/ts/flashcards.ts:110-113): a new
     * inserter and the card's setting are appended, then moved in front of the clicked
     * inserter, the setting first.
     */
    method PlaceNewCard(pos: nat, card: Flashcard)
      requires pos < |container|
      modifies this
      ensures container == old(container)[..pos] + [Inserter, Setting(card)] + old(container)[pos..]
      ensures title == old(title)
    {
      var n := |container|;
      ghost var before := container;
      CreateFlashcardInserter();
      CreateFlashcardSettingEl(card);
      assert container == before + [Inserter] + [Setting(card)];
      ClickMoves(before, pos, Setting(card));
      // insertBefore(flashcardEl, button), then insertBefore(newInserter, flashcardEl)
      container := MoveBefore(container, n + 1, pos);
      container := MoveBefore(container, n + 1, pos);
    }

    /** The splice of a click (src/ts/flashcards.ts:109): a fresh `["", ""]` goes in at idx. */
    method InsertEmptyCard(idx: nat) returns (card: Flashcard)
      requires idx <= |flashcardSet.flashcards|
      modifies flashcardSet
      ensures fresh(card) && card.front == "" && card.back == ""
      ensures flashcardSet.flashcards == old(flashcardSet.flashcards)[..idx] + [card] + old(flashcardSet.flashcards)[idx..]
      ensures flashcardSet.name == old(flashcardSet.name) && flashcardSet.id == old(flashcardSet.id)
    {
      card := new Flashcard("", "");
      SpliceInsertsAt(flashcardSet.flashcards, idx, [card]);
      flashcardSet.flashcards := Splice(flashcardSet.flashcards, idx, 0, [card]);
    }

    /**
     * A click on the remove button of the setting at position pos
     * (src/ts/flashcards.ts:86-94): the inserter before the setting goes, the card is
     * spliced out of the array where indexOf finds it, and the setting goes.
     */
    method ClickRemove(pos: nat)
      requires Valid() && pos < |container| && container[pos].Setting?
      modifies this, flashcardSet
      ensures Valid() && pos % 2 == 1
      ensures flashcardSet.flashcards == old(flashcardSet.flashcards)[..pos / 2] + old(flashcardSet.flashcards)[pos / 2 + 1..]
      ensures container == old(container)[..pos - 1] + old(container)[pos + 1..]
      ensures flashcardSet.name == old(flashcardSet.name) && flashcardSet.id == old(flashcardSet.id) && title == old(title)
    {
      var cards := flashcardSet.flashcards;
      ghost var before := container;
      LayoutSetting(cards, pos);
      var k := pos / 2;
      var card := container[pos].card;
      IndexOfDistinct(cards, k);
      // the previous sibling of a setting is the inserter in front of it
      RemoveChild(pos - 1);
      RemoveCard(card);
      assert flashcardSet.flashcards == cards[..k] + cards[k + 1..];
      RemoveChild(pos - 1);
      RemoveTwice(before, pos - 1);
      LayoutRemove(cards, k);
      assert container == Layout(flashcardSet.flashcards);
      DistinctRemove(cards, k);
    }

    /** `el.remove()` for the child at i of the container. */
    method RemoveChild(i: nat)
      requires i < |container|
      modifies this
      ensures container == old(container)[..i] + old(container)[i + 1..] && title == old(title)
    {
      container := container[..i] + container[i + 1..];
    }

    /**
     * `flashcards.splice(flashcards.indexOf(card), 1)` (src/ts/flashcards.ts:92): the card
     * goes from where indexOf finds it; a card indexOf does not find makes the index -1,
     * and the last card goes instead.
     */
    method RemoveCard(card: Flashcard)
      modifies flashcardSet
      ensures var cards, i := old(flashcardSet.flashcards), IndexOf(old(flashcardSet.flashcards), card);
        card in cards ==> flashcardSet.flashcards == cards[..i] + cards[i + 1..]
      ensures var cards := old(flashcardSet.flashcards);
        card !in cards ==> flashcardSet.flashcards == if cards == [] then [] else cards[..|cards| - 1]
      ensures flashcardSet.name == old(flashcardSet.name) && flashcardSet.id == old(flashcardSet.id)
    {
      var cards := flashcardSet.flashcards;
      SpliceAtIndexOf(cards, card);
      flashcardSet.flashcards := Splice(cards, IndexOf(cards, card), 1, []);
    }

    /** Editing the front text of a card's setting (src/ts/flashcards.ts:72-74). */
    method EditFront(card: Flashcard, value: string)
      requires Valid() && Setting(card) in container
      modifies card
      ensures Valid() && card.front == value && card.back == old(card.back)
      ensures 0 <= IndexOf(flashcardSet.flashcards, card)
      ensures Pairs(flashcardSet.flashcards) == old(Pairs(flashcardSet.flashcards))[IndexOf(flashcardSet.flashcards, card) := Pair(value, card.back)]
    {
      var cards := flashcardSet.flashcards;
      PairsAt(cards);
      CardOfSetting(cards, card);
      card.front := value;
      PairsAt(cards);
    }

    /** Editing the back text of a card's setting (src/ts/flashcards.ts:81-83). */
    method EditBack(card: Flashcard, value: string)
      requires Valid() && Setting(card) in container
      modifies card
      ensures Valid() && card.back == value && card.front == old(card.front)
      ensures 0 <= IndexOf(flashcardSet.flashcards, card)
      ensures Pairs(flashcardSet.flashcards) == old(Pairs(flashcardSet.flashcards))[IndexOf(flashcardSet.flashcards, card) := Pair(card.front, value)]
    {
      var cards := flashcardSet.flashcards;
      PairsAt(cards);
      CardOfSetting(cards, card);
      card.back := value;
      PairsAt(cards);
    }

    /** Editing the set's name (src/ts/flashcards.ts:27-31): the title follows it. */
    method Rename(value: string)
      requires Valid()
      modifies this, flashcardSet
      ensures Valid() && flashcardSet.name == value && title == TitlePrefix + value
      ensures container == old(container) && flashcardSet.flashcards == old(flashcardSet.flashcards)
      ensures flashcardSet.id == old(flashcardSet.id)
    {
      flashcardSet.name := value;
      title := TitlePrefix + flashcardSet.name;
    }
  }

  /** A setting in a mirroring container is that of one of the cards. */
  lemma CardOfSetting(cards: seq<Flashcard>, card: Flashcard)
    requires Setting(card) in Layout(cards)
    ensures card in cards && 0 <= IndexOf(cards, card)
  {
    LayoutAt(cards);
    var j :| 0 <= j < |Layout(cards)| && Layout(cards)[j] == Setting(card);
    assert cards[j / 2] == card;
  }

  /**
   * The array index a click on the inserter at pos inserts at
   * (src/ts/flashcards.ts:107-108): one past the card of the previous sibling, or 0 when
   * there is none. A previous sibling that is not a setting has no card, and indexOf
   * does not find one: 0 again.
   */
  function InsertIndex(cs: seq<Child>, cards: seq<Flashcard>, pos: nat): (k: int)
    requires pos < |cs|
    ensures 0 <= k <= |cards|
    ensures 0 < k <==> 0 < pos && cs[pos - 1].Setting? && cs[pos - 1].card in cards
    ensures 0 < k ==> cs[pos - 1] == Setting(cards[k - 1])
  {
    if pos == 0 then 0
    else
      match cs[pos - 1]
      case Setting(prev) => IndexOf(cards, prev) + 1
      case Inserter => 0
  }

  /**
   * The index computed from the previous sibling is the clicked inserter's rank among
   * the inserters: in a mirroring container, inserter k (at position 2k) inserts at k.
   */
  lemma InsertIndexIsRank(cards: seq<Flashcard>, pos: nat)
    requires Distinct(cards) && pos < |Layout(cards)| && Layout(cards)[pos] == Inserter
    ensures pos % 2 == 0 && InsertIndex(Layout(cards), cards, pos) == pos / 2
  {
    LayoutInserter(cards, pos);
    if pos > 0 {
      IndexOfDistinct(cards, pos / 2 - 1);
    }
  }

  /** Splicing in at an index within the array, deleting nothing. */
  lemma SpliceInsertsAt<T>(a: seq<T>, i: nat, items: seq<T>)
    requires i <= |a|
    ensures Splice(a, i, 0, items) == a[..i] + items + a[i..]
  {
  }

  /** The two insertBefore calls of a click leave the new inserter and setting in front of the clicked inserter. */
  lemma ClickMoves(cs: seq<Child>, pos: nat, x: Child)
    requires pos < |cs|
    ensures MoveBefore(MoveBefore(cs + [Inserter] + [x], |cs| + 1, pos), |cs| + 1, pos) == cs[..pos] + [Inserter, x] + cs[pos..]
  {
    var a, b := cs[..pos], cs[pos..];
    assert cs == a + b;
    SettingMovedBefore(a, b, x);
    InserterMovedBefore(a, b, x);
  }

  /** Inserting a card at rank pos / 2 inserts an inserter and its setting at pos of the layout. */
  lemma LayoutGrowsAt(cards: seq<Flashcard>, pos: nat, card: Flashcard)
    requires pos < |Layout(cards)| && pos % 2 == 0
    ensures Layout(cards[..pos / 2] + [card] + cards[pos / 2..])
        == Layout(cards)[..pos] + [Inserter, Setting(card)] + Layout(cards)[pos..]
  {
    LayoutInsert(cards, pos / 2, card);
  }

  /**
   * The first insertBefore of a click: the new setting x, appended after the new inserter,
   * moves in front of the clicked inserter, which heads b.
   */
  lemma SettingMovedBefore(a: seq<Child>, b: seq<Child>, x: Child)
    requires b != []
    ensures MoveBefore(a + b + [Inserter] + [x], |a| + |b| + 1, |a|) == a + [x] + b + [Inserter]
  {
    assert a + b + [Inserter] + [x] == a + (b + [Inserter]) + [x];
    LastMovedBefore(a, b + [Inserter], x);
  }

  /** The second insertBefore: the new inserter, now last, moves in front of the new setting x. */
  lemma InserterMovedBefore(a: seq<Child>, b: seq<Child>, x: Child)
    requires b != []
    ensures MoveBefore(a + [x] + b + [Inserter], |a| + |b| + 1, |a|) == a + [Inserter, x] + b
  {
    assert a + [x] + b + [Inserter] == a + ([x] + b) + [Inserter];
    LastMovedBefore(a, [x] + b, Inserter);
  }

  /** Helper: the last child y moves in front of the first child of b. */
  lemma LastMovedBefore(a: seq<Child>, b: seq<Child>, y: Child)
    requires b != []
    ensures MoveBefore(a + b + [y], |a| + |b|, |a|) == a + [y] + b
  {
    var u, n := a + b + [y], |a| + |b|;
    assert u[..|a|] == a && u[|a|..n] == b;
    assert u[n] == y && u[n + 1..] == [];
  }

  /** A new card put into distinct cards keeps them distinct. */
  lemma DistinctInsert(cards: seq<Flashcard>, k: nat, card: Flashcard)
    requires Distinct(cards) && k <= |cards| && card !in cards
    ensures Distinct(cards[..k] + [card] + cards[k..])
  {
    var n := cards[..k] + [card] + cards[k..];
    assert forall i | 0 <= i < |n| && i != k :: n[i] == cards[if i < k then i else i - 1];
  }

  /** Dropping a card from distinct cards keeps them distinct. */
  lemma DistinctRemove(cards: seq<Flashcard>, k: nat)
    requires Distinct(cards) && k < |cards|
    ensures Distinct(cards[..k] + cards[k + 1..])
  {
    var n := cards[..k] + cards[k + 1..];
    assert forall i | 0 <= i < |n| :: n[i] == cards[if i < k then i else i + 1];
  }

  /** The text of cards with one put in at k is theirs with its pair put in at k. */
  lemma PairsInsert(cards: seq<Flashcard>, k: nat, card: Flashcard)
    requires k <= |cards|
    ensures Pairs(cards[..k] + [card] + cards[k..]) == Pairs(cards)[..k] + [Pair(card.front, card.back)] + Pairs(cards)[k..]
  {
    var front, back := cards[..k], cards[k..];
    PairsSplit(cards, k);
    PairsAppend(front + [card], back);
    PairsAppend(front, [card]);
    assert Pairs([card]) == [Pair(card.front, card.back)] by {
      assert [card][1..] == [];
    }
    calc {
      Pairs(front + [card] + back);
      Pairs(front + [card]) + Pairs(back);
      Pairs(front) + [Pair(card.front, card.back)] + Pairs(back);
    }
  }

  /** The text of cards with the one at k dropped is theirs with pair k dropped. */
  lemma PairsRemove(cards: seq<Flashcard>, k: nat)
    requires k < |cards|
    ensures Pairs(cards[..k] + cards[k + 1..]) == Pairs(cards)[..k] + Pairs(cards)[k + 1..]
  {
    PairsSplit(cards, k);
    PairsSplit(cards, k + 1);
    PairsAppend(cards[..k], cards[k + 1..]);
  }

  /** The text of the cards before and from k is that much of their text. */
  lemma PairsSplit(cards: seq<Flashcard>, k: nat)
    requires k <= |cards|
    ensures Pairs(cards[..k]) == Pairs(cards)[..k] && Pairs(cards[k..]) == Pairs(cards)[k..]
  {
    PairsAppend(cards[..k], cards[k..]);
    assert cards[..k] + cards[k..] == cards;
  }

  /** The text of two runs of cards is the text of the first then that of the second. */
  lemma {:induction false} PairsAppend(a: seq<Flashcard>, b: seq<Flashcard>)
    ensures Pairs(a + b) == Pairs(a) + Pairs(b)
  {
    if a == [] {
      assert a + b == b;
    } else {
      PairsAppend(a[1..], b);
      assert (a + b)[1..] == a[1..] + b && (a + b)[0] == a[0];
      calc {
        Pairs(a + b);
        [Pair(a[0].front, a[0].back)] + Pairs(a[1..] + b);
        [Pair(a[0].front, a[0].back)] + (Pairs(a[1..]) + Pairs(b));
      }
    }
  }

  /** A pushed card extends the text the cards hold by its own pair, and stays distinct when it is new. */
  lemma PushCard(cards: seq<Flashcard>, card: Flashcard)
    requires Distinct(cards) && card !in cards
    ensures Pairs(cards + [card]) == Pairs(cards) + [Pair(card.front, card.back)]
    ensures Distinct(cards + [card])
  {
    PairsAppend(cards, [card]);
    var n := cards + [card];
    assert forall i | 0 <= i < |cards| :: n[i] == cards[i];
  }

  /**
   * One pass of the command's loop keeps its invariant: the pushed card holds the pair of
   * the record found, and the rest of the text holds the pairs still to come.
   */
  lemma LoopStep(cards: seq<Flashcard>, card: Flashcard, text: string, m: Match, selection: string)
    requires NextRecord(text) == Some(m)
    requires Pairs(cards) + Parse(text) == Parse(selection)
    requires Distinct(cards) && card !in cards
    requires Pair(card.front, card.back) == RecordOf(text, m)
    ensures m.start < m.bodyEnd <= |text|
    ensures Pairs(cards + [card]) + Parse(text[m.bodyEnd..]) == Parse(selection)
    ensures Distinct(cards + [card])
  {
    var done, rest := Pairs(cards), Parse(text[m.bodyEnd..]);
    assert Parse(text) == [RecordOf(text, m)] + rest;
    PushCard(cards, card);
    Regroup(done, Pair(card.front, card.back), rest, Parse(selection));
  }

  /** Helper: moving one element across an append does not change the sequence. */
  lemma Regroup<T>(a: seq<T>, x: T, b: seq<T>, total: seq<T>)
    requires a + ([x] + b) == total
    ensures (a + [x]) + b == total
  {
  }

  /** Computes NextRecord with the two exec calls of one pass (src/ts/flashcards.ts:292-297). */
  method FindRecord(text: string) returns (found: Option<Match>)
    ensures found == NextRecord(text)
  {
    found := Exec(NonFinal, text);
    if found.None? {
      found := Exec(Last, text);
    }
  }

  /** Builds the card for the pair RecordOf gives (src/ts/flashcards.ts:298). */
  method NewCard(text: string, m: Match) returns (card: Flashcard)
    requires m.start <= m.termEnd < m.bodyEnd <= |text|
    ensures fresh(card) && Pair(card.front, card.back) == RecordOf(text, m)
  {
    card := new Flashcard(Trim(text[m.start..m.termEnd]), Trim(text[m.termEnd + 1..m.bodyEnd]));
    RecordParts(text, m);
  }

  /**
   * The loop of the "Create Flashcard Set" command (src/ts/flashcards.ts:285-299): it cuts
   * records off the front of the text until neither pattern matches, pushing one new card
   * per record.
   */
  method CollectCards(selection: string) returns (cards: seq<Flashcard>)
    ensures Pairs(cards) == Parse(selection) && Distinct(cards)
  {
    cards := [];
    var text := selection;
    while true
      invariant Pairs(cards) + Parse(text) == Parse(selection)
      invariant Distinct(cards)
      decreases |text|
    {
      var found := FindRecord(text);
      if found.None? {
        break;
      }
      var m := found.value;
      var card := NewCard(text, m);
      LoopStep(cards, card, text, m, selection);
      cards := cards + [card];
      // `match.index + match[1].length`: where group 1 ends
      text := text[m.start + (m.bodyEnd - m.start)..];
    }
  }

  /**
   * The "Create Flashcard Set" command (src/ts/flashcards.ts:280-303), given the selected
   * text and the clock's reading. With nothing selected the set holds one empty card;
   * otherwise it holds one card per record of the selection.
   */
  method OnCreateFlashcardSetCommand(selection: string, now: int) returns (modal: FlashcardSetModal)
    ensures fresh(modal) && fresh(modal.flashcardSet) && modal.Valid()
    ensures modal.flashcardSet.name == DefaultSetName && modal.flashcardSet.id == Some(now)
    ensures modal.title == TitlePrefix + DefaultSetName
    ensures selection == [] ==> Pairs(modal.flashcardSet.flashcards) == [Pair("", "")]
    ensures selection != [] ==> Pairs(modal.flashcardSet.flashcards) == Parse(selection)
  {
    if selection == [] {
      var blank := new Flashcard("", "");
      var flashcardSet := new FlashcardSet(DefaultSetName, [blank], -1, now);
      modal := new FlashcardSetModal(flashcardSet);
      return;
    }
    var cards := CollectCards(selection);
    var flashcardSet := new FlashcardSet(DefaultSetName, cards, -1, now);
    modal := new FlashcardSetModal(flashcardSet);
  }
}
