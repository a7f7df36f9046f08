/**
 * The store card's data (app/src/main/java/com/example/room_setup_composables/ui/theme/StoreList.kt).
 *
 * Several store rows may share a name, each with its own comma-separated list of
 * available hours. For a given name the screen keeps the rows with that name, shows
 * nothing when there are none, and otherwise shows one card for the first such row
 * with the hours of all of them merged:
 * `filteredStores.flatMap { it.avHours.split(",") }.distinct()`.
 */
module StoreList {
  import opened Optional

  /** A row of the store table; `avHours` is the raw comma-separated hour list. */
  datatype Store = Store(name: string, info: string, location: string, avHours: string)

  /** The delimiter the hour list is split on. */
  const COMMA: char := ','

  /** The number of delimiters in a string. */
  function CommaCount(s: string): nat {
    if s == [] then 0 else (if s[0] == COMMA then 1 else 0) + CommaCount(s[1..])
  }

  /**
   * `s.split(",")`: the maximal comma-free pieces between delimiters, empty pieces
   * included (the empty string gives one empty piece). There is always one piece
   * more than there are commas, and no piece holds a comma.
   */
  function Split(s: string): (pieces: seq<string>)
    ensures |pieces| == CommaCount(s) + 1
    ensures forall i :: 0 <= i < |pieces| ==> COMMA !in pieces[i]
  {
    if s == [] then [[]]
    else
      var rest := Split(s[1..]);
      if s[0] == COMMA then [[]] + rest
      else [[s[0]] + rest[0]] + rest[1..]
  }

  /** The inverse of Split: the pieces with a comma between each two; used to state the round trip. */
  function Join(pieces: seq<string>): string {
    if pieces == [] then []
    else if |pieces| == 1 then pieces[0]
    else pieces[0] + [COMMA] + Join(pieces[1..])
  }

  /** Joining the pieces of a split with commas gives back the original string. */
  lemma {:induction false} SplitThenJoin(s: string)
    ensures Join(Split(s)) == s
  {
    if s != [] {
      var rest := Split(s[1..]);
      SplitThenJoin(s[1..]);
      if s[0] == COMMA {
        assert Split(s) == [[]] + rest;
        assert Join(Split(s)) == [] + [COMMA] + Join(rest);
      } else if |rest| == 1 {
        assert Split(s) == [[s[0]] + rest[0]];
      } else {
        assert Split(s) == [[s[0]] + rest[0]] + rest[1..];
        assert Join(rest) == rest[0] + [COMMA] + Join(rest[1..]);
        assert Join(Split(s)) == [s[0]] + rest[0] + [COMMA] + Join(rest[1..]);
      }
    }
  }

  /** Splitting a comma-free prefix onto the rest only lengthens the first piece. */
  lemma {:induction false} SplitAfterCommaFree(a: string, t: string)
    requires COMMA !in a
    ensures Split(a + t) == [a + Split(t)[0]] + Split(t)[1..]
  {
    if a == [] {
      assert a + t == t && a + Split(t)[0] == Split(t)[0];
      assert Split(t) == [Split(t)[0]] + Split(t)[1..];
    } else {
      assert (a + t)[0] == a[0];
      assert (a + t)[1..] == a[1..] + t;
      var rest := Split(a[1..] + t);
      assert Split(a + t) == [[a[0]] + rest[0]] + rest[1..];
      SplitAfterCommaFree(a[1..], t);
      assert [a[0]] + (a[1..] + Split(t)[0]) == a + Split(t)[0];
    }
  }

  /** Conversely, splitting a join of comma-free pieces gives back the pieces. */
  lemma {:induction false} JoinThenSplit(pieces: seq<string>)
    requires |pieces| >= 1
    requires forall i :: 0 <= i < |pieces| ==> COMMA !in pieces[i]
    ensures Split(Join(pieces)) == pieces
  {
    if |pieces| == 1 {
      SplitAfterCommaFree(pieces[0], []);
      assert pieces[0] + [] == pieces[0];
    } else {
      var tail := Join(pieces[1..]);
      JoinThenSplit(pieces[1..]);
      assert ([COMMA] + tail)[1..] == tail;
      assert Split([COMMA] + tail) == [[]] + pieces[1..];
      assert Join(pieces) == pieces[0] + ([COMMA] + tail);
      SplitAfterCommaFree(pieces[0], [COMMA] + tail);
      assert pieces[0] + [] == pieces[0];
    }
  }

  /** No element occurs twice. */
  predicate NoDuplicates(xs: seq<string>) {
    forall i, j :: 0 <= i < j < |xs| ==> xs[i] != xs[j]
  }

  /** The position of the first occurrence of x in xs. */
  function IndexOf(xs: seq<string>, x: string): (i: nat)
    requires x in xs
    ensures i < |xs| && xs[i] == x
    ensures forall j :: 0 <= j < i ==> xs[j] != x
  {
    if xs[0] == x then 0 else 1 + IndexOf(xs[1..], x)
  }

  /** Appending to a sequence does not move the first occurrence of what it already holds. */
  lemma IndexOfInPrefix(xs: seq<string>, y: string, x: string)
    requires x in xs
    ensures IndexOf(xs + [y], x) == IndexOf(xs, x)
  {
    var i, k := IndexOf(xs + [y], x), IndexOf(xs, x);
    assert (xs + [y])[k] == x;
    assert i <= k;
    assert xs[i] == x;
  }

  /**
   * `distinct()`: the elements of xs, each once, in the order of their first
   * occurrence (built from the back: the last element is kept only when it is new).
   */
  function Distinct(xs: seq<string>): (r: seq<string>)
    ensures NoDuplicates(r)
    ensures forall x :: x in r <==> x in xs
    ensures |r| <= |xs|
  {
    if xs == [] then []
    else
      var init, last := xs[..|xs| - 1], xs[|xs| - 1];
      assert xs == init + [last];
      var d := Distinct(init);
      if last in d then d else d + [last]
  }

  /** The kept elements appear in the order in which they first occur in the input. */
  lemma {:induction false} DistinctKeepsFirstOccurrenceOrder(xs: seq<string>)
    ensures forall i, j :: 0 <= i < j < |Distinct(xs)| ==> IndexOf(xs, Distinct(xs)[i]) < IndexOf(xs, Distinct(xs)[j])
  {
    if xs != [] {
      var init, last := xs[..|xs| - 1], xs[|xs| - 1];
      assert xs == init + [last];
      var d := Distinct(init);
      DistinctKeepsFirstOccurrenceOrder(init);
      forall x | x in init ensures IndexOf(xs, x) == IndexOf(init, x) < |init| {
        IndexOfInPrefix(init, last, x);
      }
      var r := Distinct(xs);
      assert r == if last in d then d else d + [last];
      forall i, j | 0 <= i < j < |r| ensures IndexOf(xs, r[i]) < IndexOf(xs, r[j]) {
        assert r[i] == d[i] && d[i] in d && d[i] in init;
        assert IndexOf(xs, r[i]) == IndexOf(init, d[i]) < |init|;
        if j < |d| {
          assert r[j] == d[j] && d[j] in d && d[j] in init;
          assert IndexOf(xs, r[j]) == IndexOf(init, d[j]);
          assert IndexOf(init, d[i]) < IndexOf(init, d[j]);
        } else {
          assert r[j] == last && last !in init;
          assert IndexOf(xs, last) == |init|;
        }
      }
    }
  }

  /** A sequence that already has no duplicates is left as it is. */
  lemma {:induction false} DistinctOfDuplicateFree(xs: seq<string>)
    requires NoDuplicates(xs)
    ensures Distinct(xs) == xs
  {
    if xs != [] {
      var init, last := xs[..|xs| - 1], xs[|xs| - 1];
      assert xs == init + [last];
      DistinctOfDuplicateFree(init);
      assert last !in init;
    }
  }

  /** Distinct is idempotent. */
  lemma DistinctIsIdempotent(xs: seq<string>)
    ensures Distinct(Distinct(xs)) == Distinct(xs)
  {
    DistinctOfDuplicateFree(Distinct(xs));
  }

  /** `stores.filter { it.name == filtername }` */
  function FilterByName(stores: seq<Store>, filtername: string): (r: seq<Store>)
    ensures |r| <= |stores|
    ensures forall s :: s in r <==> s in stores && s.name == filtername
  {
    if stores == [] then []
    else
      (if stores[0].name == filtername then [stores[0]] else [])
      + FilterByName(stores[1..], filtername)
  }

  /** Filtering keeps list order: filtering a concatenation concatenates the filtered parts. */
  lemma {:induction false} FilterByNameAppend(a: seq<Store>, b: seq<Store>, filtername: string)
    ensures FilterByName(a + b, filtername) == FilterByName(a, filtername) + FilterByName(b, filtername)
  {
    if a != [] {
      assert (a + b)[0] == a[0];
      assert (a + b)[1..] == a[1..] + b;
      FilterByNameAppend(a[1..], b, filtername);
    } else {
      assert a + b == b;
    }
  }

  /** `filteredStores.first()` is the earliest store in the list with that name. */
  lemma {:induction false} FilterByNameHead(stores: seq<Store>, filtername: string, i: nat)
    requires i < |stores| && stores[i].name == filtername
    requires forall j :: 0 <= j < i ==> stores[j].name != filtername
    ensures FilterByName(stores, filtername) != []
    ensures FilterByName(stores, filtername)[0] == stores[i]
  {
    if i > 0 {
      FilterByNameHead(stores[1..], filtername, i - 1);
    }
  }

  /**
   * `flatMap { it.avHours.split(",") }`: the pieces of every store's hour list, store
   * after store. A piece occurs exactly when it is a piece of some store's list.
   */
  function AllHours(stores: seq<Store>): (r: seq<string>)
    ensures forall h :: h in r <==> exists s :: s in stores && h in Split(s.avHours)
  {
    if stores == [] then []
    else Split(stores[0].avHours) + AllHours(stores[1..])
  }

  /** A single store contributes its pieces in string order. */
  lemma AllHoursOfOneStore(store: Store)
    ensures AllHours([store]) == Split(store.avHours)
  {
    assert AllHours([store]) == Split(store.avHours) + AllHours([]);
  }

  /** The pieces come store by store in list order. */
  lemma {:induction false} AllHoursAppend(a: seq<Store>, b: seq<Store>)
    ensures AllHours(a + b) == AllHours(a) + AllHours(b)
  {
    if a != [] {
      assert (a + b)[0] == a[0];
      assert (a + b)[1..] == a[1..] + b;
      AllHoursAppend(a[1..], b);
    } else {
      assert a + b == b;
    }
  }

  /** What the store card shows: the representative store and the merged hour list. */
  datatype StoreCardView = StoreCardView(store: Store, availableHours: seq<string>)

  /**
   * The body of the store list for one name. No card when no store has the name;
   * otherwise the representative has that name, the merged hours hold no duplicates,
   * and an hour is listed exactly when it is a piece of some such store's hour list.
   */
  function MergeStoreHours(stores: seq<Store>, filtername: string): (r: Option<StoreCardView>)
    ensures r.None? <==> forall s :: s in stores ==> s.name != filtername
    ensures r.Some? ==> r.value.store in stores && r.value.store.name == filtername
    ensures r.Some? ==> NoDuplicates(r.value.availableHours)
    ensures r.Some? ==> forall h :: h in r.value.availableHours <==>
      exists s :: s in stores && s.name == filtername && h in Split(s.avHours)
  {
    var filtered := FilterByName(stores, filtername);
    if filtered == [] then None
    else
      assert filtered[0] in filtered;
      Some(StoreCardView(filtered[0], Distinct(AllHours(filtered))))
  }

  /** The representative store is the first store in the list with the name. */
  lemma MergeRepresentativeIsFirst(stores: seq<Store>, filtername: string, i: nat)
    requires i < |stores| && stores[i].name == filtername
    requires forall j :: 0 <= j < i ==> stores[j].name != filtername
    ensures MergeStoreHours(stores, filtername).Some?
    ensures MergeStoreHours(stores, filtername).value.store == stores[i]
  {
    FilterByNameHead(stores, filtername, i);
  }

  /**
   * The merged hours keep first-occurrence order in the pieces of the matching
   * stores taken store by store in list order, and within a store in string order.
   */
  lemma MergeHoursInFirstOccurrenceOrder(stores: seq<Store>, filtername: string)
    requires MergeStoreHours(stores, filtername).Some?
    ensures var hours, pieces := MergeStoreHours(stores, filtername).value.availableHours,
                                AllHours(FilterByName(stores, filtername));
      forall i, j :: 0 <= i < j < |hours| ==> IndexOf(pieces, hours[i]) < IndexOf(pieces, hours[j])
  {
    var pieces := AllHours(FilterByName(stores, filtername));
    assert MergeStoreHours(stores, filtername).value.availableHours == Distinct(pieces);
    DistinctKeepsFirstOccurrenceOrder(pieces);
  }

  /**
   * The pieces merged for a list made of two parts are those of the first part
   * followed by those of the second: earlier stores come first.
   */
  lemma MergedPiecesInStoreOrder(a: seq<Store>, b: seq<Store>, filtername: string)
    ensures AllHours(FilterByName(a + b, filtername))
         == AllHours(FilterByName(a, filtername)) + AllHours(FilterByName(b, filtername))
  {
    FilterByNameAppend(a, b, filtername);
    AllHoursAppend(FilterByName(a, filtername), FilterByName(b, filtername));
  }

  /**
   * Pieces are compared untrimmed: an hour and the same hour after a space are two
   * different entries of the merged list (only the rendering trims them).
   */
  lemma {:induction false} UntrimmedPiecesStayDistinct(store: Store, hour: string)
    requires COMMA !in hour
    requires store.avHours == hour + [COMMA] + " " + hour
    ensures MergeStoreHours([store], store.name) == Some(StoreCardView(store, [hour, " " + hour]))
  {
    var pieces := [hour, " " + hour];
    assert COMMA !in " " + hour;
    JoinThenSplit(pieces);
    assert Join(pieces) == store.avHours;
    assert FilterByName([store], store.name) == [store];
    assert AllHours([store]) == Split(store.avHours) + AllHours([]);
    assert AllHours([store]) == pieces;
    assert |pieces[0]| != |pieces[1]|;
    DistinctOfDuplicateFree(pieces);
    assert MergeStoreHours([store], store.name) == Some(StoreCardView(store, Distinct(pieces)));
  }
}
