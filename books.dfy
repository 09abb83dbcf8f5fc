/**
 * `get_books_bars`: how the ranked hadiths spread over the books of al-Kafi,
 * each book's count divided by the number of hadiths in that book, largest
 * share first.
 */
module Books {
  import opened Outcomes
  import opened Sequences
  import opened Metrics
  import opened Ranking

  /** The hadiths among `hs` that the book table files under book `b`. */
  function Among(books: map<int, string>, hs: set<int>, b: string): set<int> {
    set h | h in hs && h in books && books[h] == b
  }

  /** `book_lens[b]`: the number of hadiths in book `b`. */
  function BookLen(books: map<int, string>, b: string): nat {
    |Among(books, books.Keys, b)|
  }

  /** Every book named in the table has at least one hadith. */
  lemma BookLenPositive(books: map<int, string>, h: int)
    requires h in books
    ensures BookLen(books, books[h]) > 0
  {
    assert h in Among(books, books.Keys, books[h]);
  }

  /**
   * `hid_books_dict[hid]` for every row in order: the book of each row, or
   * KeyError exactly when some row's hadith has no book.
   */
  function BookNames(books: map<int, string>, hs: seq<Hist>): (r: Result<seq<string>>)
    ensures r.Failure? <==> exists i :: 0 <= i < |hs| && hs[i].hid !in books
    ensures r.Failure? ==> r.error == KeyError
    ensures r.Success? ==> |r.value| == |hs| && forall i :: 0 <= i < |hs| ==> r.value[i] == books[hs[i].hid]
  {
    if exists i :: 0 <= i < |hs| && hs[i].hid !in books then Failure(KeyError)
    else Success(seq(|hs|, i requires 0 <= i < |hs| => books[hs[i].hid]))
  }

  /**
   * `{k: v/book_lens[k] for k, v in book_counter.items() if v > 0}`, with the
   * books `keys` in the counter's insertion order and `names` the counted books.
   */
  function Shares(keys: seq<string>, names: seq<string>, books: map<int, string>): seq<(string, real)>
    requires forall k :: k in keys ==> BookLen(books, k) > 0
  {
    if keys == [] then []
    else
      var k := keys[|keys| - 1];
      var v := multiset(names)[k];
      Shares(keys[..|keys| - 1], names, books) + (if v > 0 then [(k, v as real / BookLen(books, k) as real)] else [])
  }

  /** The sort key of the bars: the share. */
  function ByShare(): ((string, real)) -> real {
    (e: (string, real)) => e.1
  }

  /** Every book a row names has hadiths. */
  lemma NamedBooks(books: map<int, string>, hs: seq<Hist>)
    requires BookNames(books, hs).Success?
    ensures forall k :: k in Dedup(BookNames(books, hs).value) ==> BookLen(books, k) > 0
  {
    var names := BookNames(books, hs).value;
    forall k | k in Dedup(names)
      ensures BookLen(books, k) > 0
    {
      DedupMember(names, k);
      var i :| 0 <= i < |names| && names[i] == k;
      BookLenPositive(books, hs[i].hid);
    }
  }

  /** `book_counter_norm` before sorting: the share of every book the rows name, in first-seen order. */
  function Unsorted(hs: seq<Hist>, books: map<int, string>): seq<(string, real)>
    requires BookNames(books, hs).Success?
  {
    var names := BookNames(books, hs).value;
    NamedBooks(books, hs);
    Shares(Dedup(names), names, books)
  }

  /** What `get_books_bars(hists)` returns, before the books are renamed to English. */
  function BooksBars(hs: seq<Hist>, books: map<int, string>): Result<seq<(string, real)>> {
    var names := BookNames(books, hs);
    if names.Failure? then Failure(names.error)
    else Success(SortDesc(Unsorted(hs, books), ByShare()))
  }

  /** The share of book `k`: its count among the rows over its number of hadiths. */
  predicate IsShare(e: (string, real), names: seq<string>, books: map<int, string>) {
    BookLen(books, e.0) > 0 && e.1 == multiset(names)[e.0] as real / BookLen(books, e.0) as real
  }

  /**
   * The bars hold exactly the keys that were counted at least once, each with
   * its share.
   */
  lemma {:induction false} SharesSpec(keys: seq<string>, names: seq<string>, books: map<int, string>)
    requires forall k :: k in keys ==> BookLen(books, k) > 0
    ensures forall e :: e in Shares(keys, names, books) ==>
              e.0 in keys && multiset(names)[e.0] > 0 && IsShare(e, names, books)
    ensures forall k :: k in keys && multiset(names)[k] > 0 ==>
              exists e :: e in Shares(keys, names, books) && e.0 == k
  {
    if keys != [] {
      var p, k := keys[..|keys| - 1], keys[|keys| - 1];
      assert forall x :: x in p ==> x in keys;
      SharesSpec(p, names, books);
      var v := multiset(names)[k];
      if v > 0 {
        var e := (k, v as real / BookLen(books, k) as real);
        assert e in Shares(keys, names, books);
      }
    }
  }

  /** The bars are a permutation of the books' shares, sorted by share, largest first. */
  lemma BooksBarsRanked(hs: seq<Hist>, books: map<int, string>)
    requires BooksBars(hs, books).Success?
    ensures multiset(BooksBars(hs, books).value) == multiset(Unsorted(hs, books))
    ensures SortedDesc(BooksBars(hs, books).value, ByShare())
  {
    SortDescSpec(Unsorted(hs, books), ByShare());
  }

  /** A positive count over a positive length is a positive share. */
  lemma SharePositive(c: nat, l: nat)
    requires c > 0 && l > 0
    ensures c as real / l as real > 0.0
  {
  }

  /** An unsorted bar is the book of some row, with its share, which is positive. */
  lemma UnsortedShare(hs: seq<Hist>, books: map<int, string>, e: (string, real))
    requires BookNames(books, hs).Success? && e in Unsorted(hs, books)
    ensures exists i :: 0 <= i < |hs| && books[hs[i].hid] == e.0
    ensures IsShare(e, BookNames(books, hs).value, books) && e.1 > 0.0
  {
    var names := BookNames(books, hs).value;
    NamedBooks(books, hs);
    SharesSpec(Dedup(names), names, books);
    DedupMember(names, e.0);
    var i :| 0 <= i < |names| && names[i] == e.0;
    SharePositive(multiset(names)[e.0], BookLen(books, e.0));
  }

  /** Every bar is the book of some row, with its share, which is positive. */
  lemma BooksBarsShares(hs: seq<Hist>, books: map<int, string>)
    requires BooksBars(hs, books).Success?
    ensures forall e :: e in BooksBars(hs, books).value ==>
              && (exists i :: 0 <= i < |hs| && books[hs[i].hid] == e.0)
              && IsShare(e, BookNames(books, hs).value, books) && e.1 > 0.0
  {
    BooksBarsRanked(hs, books);
    forall e | e in BooksBars(hs, books).value
      ensures (exists i :: 0 <= i < |hs| && books[hs[i].hid] == e.0)
      ensures IsShare(e, BookNames(books, hs).value, books) && e.1 > 0.0
    {
      assert e in multiset(Unsorted(hs, books));
      UnsortedShare(hs, books, e);
    }
  }

  /** The book of every row has a bar. */
  lemma BooksBarsCover(hs: seq<Hist>, books: map<int, string>)
    requires BooksBars(hs, books).Success?
    ensures forall i :: 0 <= i < |hs| ==>
              exists e :: e in BooksBars(hs, books).value && e.0 == books[hs[i].hid]
  {
    var names := BookNames(books, hs).value;
    NamedBooks(books, hs);
    SharesSpec(Dedup(names), names, books);
    BooksBarsRanked(hs, books);
    forall i | 0 <= i < |hs|
      ensures exists e :: e in BooksBars(hs, books).value && e.0 == books[hs[i].hid]
    {
      var k := names[i];
      DedupMember(names, k);
      assert multiset(names)[k] > 0;
      var e :| e in Unsorted(hs, books) && e.0 == k;
      assert e in multiset(BooksBars(hs, books).value);
    }
  }

  /** The hadith ids of the rows. */
  function HidSet(hs: seq<Hist>): set<int> {
    set i | 0 <= i < |hs| :: hs[i].hid
  }

  /** With distinct hadiths, a book's count is the number of the rows' hadiths in it. */
  lemma {:induction false} CountAmong(hs: seq<Hist>, books: map<int, string>, b: string)
    requires BookNames(books, hs).Success?
    requires forall i, j :: 0 <= i < j < |hs| ==> hs[i].hid != hs[j].hid
    ensures multiset(BookNames(books, hs).value)[b] == |Among(books, HidSet(hs), b)|
  {
    if hs != [] {
      var p, h := hs[..|hs| - 1], hs[|hs| - 1];
      var names, pnames := BookNames(books, hs).value, BookNames(books, p).value;
      assert names == pnames + [books[h.hid]];
      CountAmong(p, books, b);
      assert HidSet(hs) == HidSet(p) + {h.hid} by {
        forall x | x in HidSet(hs) ensures x in HidSet(p) + {h.hid} {
          var i :| 0 <= i < |hs| && hs[i].hid == x;
          if i < |p| {
            assert p[i].hid == x;
          }
        }
      }
      assert h.hid !in HidSet(p);
      AmongAdd(books, HidSet(p), h.hid, b);
    }
  }

  /** When the rows name distinct hadiths, no share exceeds one. */
  lemma BooksBarsBounded(hs: seq<Hist>, books: map<int, string>)
    requires BooksBars(hs, books).Success?
    requires forall i, j :: 0 <= i < j < |hs| ==> hs[i].hid != hs[j].hid
    ensures forall e :: e in BooksBars(hs, books).value ==> e.1 <= 1.0
  {
    BooksBarsShares(hs, books);
    var names := BookNames(books, hs).value;
    forall e | e in BooksBars(hs, books).value
      ensures e.1 <= 1.0
    {
      CountAmong(hs, books, e.0);
      SubsetCard(Among(books, HidSet(hs), e.0), Among(books, books.Keys, e.0));
      RatioSpec(multiset(names)[e.0], BookLen(books, e.0));
    }
  }

  // ---------------------------------------------------------------------------
  // The loops of get_books_bars
  // ---------------------------------------------------------------------------

  /** `book_lens` after counting the hadiths `done`: each book seen, with its count so far. */
  ghost predicate LensSoFar(lens: map<string, nat>, books: map<int, string>, done: set<int>)
    requires done <= books.Keys
  {
    && (forall b :: b in lens <==> exists h :: h in done && books[h] == b)
    && (forall b :: b in lens ==> lens[b] == |Among(books, done, b)|)
  }

  /** Counting one more hadith adds it to its own book only. */
  lemma AmongAdd(books: map<int, string>, done: set<int>, h: int, x: string)
    requires h in books && h !in done
    ensures |Among(books, done + {h}, x)| == |Among(books, done, x)| + (if books[h] == x then 1 else 0)
  {
    if books[h] == x {
      assert Among(books, done + {h}, x) == Among(books, done, x) + {h};
    } else {
      assert Among(books, done + {h}, x) == Among(books, done, x);
    }
  }

  /** A book none of the hadiths `done` belongs to has none of them. */
  lemma AmongNone(books: map<int, string>, done: set<int>, x: string)
    requires forall h :: h in done && h in books ==> books[h] != x
    ensures Among(books, done, x) == {}
  {
    assert forall y :: y !in Among(books, done, x);
  }

  /** Counting one more hadith into `book_lens`. */
  lemma LensStep(lens: map<string, nat>, books: map<int, string>, done: set<int>, h: int)
    requires done <= books.Keys && h in books && h !in done && LensSoFar(lens, books, done)
    ensures var b := books[h];
            LensSoFar(lens[b := (if b in lens then lens[b] else 0) + 1], books, done + {h})
  {
    var b := books[h];
    var lens' := lens[b := (if b in lens then lens[b] else 0) + 1];
    forall x
      ensures x in lens' <==> exists y :: y in done + {h} && books[y] == x
    {
      if x == b {
        assert h in done + {h};
      }
    }
    forall x | x in lens'
      ensures lens'[x] == |Among(books, done + {h}, x)|
    {
      AmongAdd(books, done, h, x);
      if x !in lens {
        AmongNone(books, done, x);
      }
    }
  }

  /** The `book_lens` loop: the number of hadiths of every book of the table. */
  method BookLens(books: map<int, string>) returns (lens: map<string, nat>)
    ensures forall b :: b in lens <==> exists h :: h in books && books[h] == b
    ensures forall b :: b in lens ==> lens[b] == BookLen(books, b)
  {
    lens := map[];
    var todo := books.Keys;
    while todo != {}
      invariant todo <= books.Keys
      invariant LensSoFar(lens, books, books.Keys - todo)
      decreases |todo|
    {
      assert exists x :: x in todo by {
        var x := PickOne(todo);
      }
      var hid :| hid in todo;
      LensStep(lens, books, books.Keys - todo, hid);
      assert books.Keys - (todo - {hid}) == (books.Keys - todo) + {hid};
      lens := lens[books[hid] := (if books[hid] in lens then lens[books[hid]] else 0) + 1];
      todo := todo - {hid};
    }
    assert books.Keys - todo == books.Keys;
  }

  /** `book_counter` after the rows `seen`: each book named, with its count. */
  ghost predicate CounterSoFar(counter: map<string, nat>, order: seq<string>, seen: seq<string>) {
    && order == Dedup(seen)
    && (forall b :: b in counter <==> b in seen)
    && (forall b :: b in counter ==> counter[b] == multiset(seen)[b])
  }

  /** Counting one more row into `book_counter`; a new book goes last in its insertion order. */
  lemma CounterStep(counter: map<string, nat>, order: seq<string>, seen: seq<string>, b: string)
    requires CounterSoFar(counter, order, seen)
    ensures CounterSoFar(counter[b := (if b in counter then counter[b] else 0) + 1],
                         if b in counter then order else order + [b], seen + [b])
  {
    DedupAppend(seen, b);
    DedupMember(seen, b);
    assert multiset(seen + [b]) == multiset(seen) + multiset{b};
  }

  /** The `book_counter` loop: the books of the rows in first-seen order and their counts. */
  method CountBooks(hs: seq<Hist>, books: map<int, string>) returns (r: Result<(map<string, nat>, seq<string>)>)
    ensures r.Failure? <==> BookNames(books, hs).Failure?
    ensures r.Failure? ==> r.error == KeyError
    ensures r.Success? ==> CounterSoFar(r.value.0, r.value.1, BookNames(books, hs).value)
  {
    var counter: map<string, nat> := map[];
    var order: seq<string> := [];
    ghost var seen: seq<string> := [];
    var i := 0;
    while i < |hs|
      invariant 0 <= i <= |hs| && |seen| == i
      invariant forall j :: 0 <= j < i ==> hs[j].hid in books && seen[j] == books[hs[j].hid]
      invariant CounterSoFar(counter, order, seen)
    {
      var hid := hs[i].hid;
      if hid !in books {
        return Failure(KeyError);
      }
      var b := books[hid];
      CounterStep(counter, order, seen, b);
      if b !in counter {
        order := order + [b];
      }
      counter := counter[b := (if b in counter then counter[b] else 0) + 1];
      seen := seen + [b];
      i := i + 1;
    }
    assert seen == BookNames(books, hs).value;
    r := Success((counter, order));
  }

  /** `get_books_bars`: the books' shares of the rows, largest first. */
  method GetBooksBars(hs: seq<Hist>, books: map<int, string>) returns (r: Result<seq<(string, real)>>)
    ensures r == BooksBars(hs, books)
  {
    var lens := BookLens(books);
    var counted := CountBooks(hs, books);
    if counted.Failure? {
      return Failure(counted.error);
    }
    var (counter, order) := counted.value;
    ghost var names := BookNames(books, hs).value;
    NamedBooks(books, hs);
    var norm: seq<(string, real)> := [];
    var j := 0;
    while j < |order|
      invariant 0 <= j <= |order|
      invariant norm == Shares(order[..j], names, books)
    {
      var k := order[j];
      DedupMember(names, k);
      assert k in lens by {
        var i :| 0 <= i < |names| && names[i] == k;
        assert books[hs[i].hid] == k;
      }
      assert order[..j + 1][..j] == order[..j];
      if counter[k] > 0 {
        norm := norm + [(k, counter[k] as real / lens[k] as real)];
      }
      j := j + 1;
    }
    assert order[..j] == order;
    r := Success(SortDesc(norm, ByShare()));
  }
}
