/**
 * Reader names in the native addon (nfc-addon.cpp): IsACR122U, and the loop
 * in GetReaders that walks the multi-string SCardListReaders returns and
 * stores the names in a JavaScript array, meaning to put ACR122U readers first.
 */
module Readers {
  import opened Options

  const Acr122u: string := "ACR122U"

  predicate OccursAt(s: string, pat: string, j: nat) {
    j + |pat| <= |s| && s[j .. j + |pat|] == pat
  }

  /** `s.find(pat, from)`: the first position at or after `from` where `pat` occurs, or npos. */
  function FindFrom(s: string, pat: string, from: nat): (r: Option<nat>)
    ensures r.Some? ==> from <= r.value && OccursAt(s, pat, r.value)
    ensures forall j: nat :: from <= j && (r.None? || j < r.value) ==> !OccursAt(s, pat, j)
    decreases |s| - from
  {
    if from + |pat| > |s| then None
    else if s[from .. from + |pat|] == pat then Some(from)
    else FindFrom(s, pat, from + 1)
  }

  /** IsACR122U: `readerName.find("ACR122U") != npos`. */
  predicate IsAcr122u(readerName: string) {
    FindFrom(readerName, Acr122u, 0).Some?
  }

  /** A name is an ACR122U name exactly when "ACR122U" occurs in it somewhere. */
  lemma IsAcr122uIff(readerName: string)
    ensures IsAcr122u(readerName) <==> exists j: nat :: OccursAt(readerName, Acr122u, j)
  {
    var r := FindFrom(readerName, Acr122u, 0);
    if r.Some? {
      assert OccursAt(readerName, Acr122u, r.value);
    }
  }

  // ----- the multi-string of reader names -----

  /** A multi-string from SCardListReaders ends with an empty string: the last two characters (or the only one) are NUL. */
  predicate WellTerminated(msz: string) {
    |msz| >= 1 && msz[|msz| - 1] == '\0' && (|msz| >= 2 ==> msz[|msz| - 2] == '\0')
  }

  /** The position of the first NUL at or after p; `strlen(msz + p)` is its distance from p. */
  function NulFrom(msz: string, p: nat): (q: nat)
    requires p < |msz| && msz[|msz| - 1] == '\0'
    ensures p <= q < |msz| && msz[q] == '\0'
    ensures forall k :: p <= k < q ==> msz[k] != '\0'
    decreases |msz| - p
  {
    if msz[p] == '\0' then p else NulFrom(msz, p + 1)
  }

  /** A name starting at p is followed by its NUL and then by at least one more character. */
  lemma NameFits(msz: string, p: nat)
    requires WellTerminated(msz) && p < |msz| && msz[p] != '\0'
    ensures NulFrom(msz, p) + 1 < |msz|
  {
    if |msz| >= 2 {
      assert msz[|msz| - 2] == '\0';
    }
  }

  /** The names the GetReaders loop visits from position p on, in order: it stops at the first empty string. */
  function NamesFrom(msz: string, p: nat): (names: seq<string>)
    requires WellTerminated(msz) && p < |msz|
    ensures names == [] <==> msz[p] == '\0'
    decreases |msz| - p
  {
    if msz[p] == '\0' then []
    else
      var q := NulFrom(msz, p);
      NameFits(msz, p);
      [msz[p..q]] + NamesFrom(msz, q + 1)
  }

  /** The names a multi-string lists. */
  function Names(msz: string): (names: seq<string>)
    requires WellTerminated(msz)
    ensures names == [] <==> msz[0] == '\0'
  {
    NamesFrom(msz, 0)
  }

  /** Every name the walk yields is a non-empty string without NUL, and there is at most one per character. */
  lemma {:induction false} NamesFromClean(msz: string, p: nat)
    requires WellTerminated(msz) && p < |msz|
    ensures |NamesFrom(msz, p)| <= |msz| - p
    ensures forall k :: 0 <= k < |NamesFrom(msz, p)| ==>
      NamesFrom(msz, p)[k] != "" && '\0' !in NamesFrom(msz, p)[k]
    decreases |msz| - p
  {
    if msz[p] != '\0' {
      var q := NulFrom(msz, p);
      NameFits(msz, p);
      NamesFromClean(msz, q + 1);
      var name := msz[p..q];
      assert name[0] == msz[p];
      assert '\0' !in name by {
        forall k | 0 <= k < |name| ensures name[k] != '\0' {
          assert name[k] == msz[p + k];
        }
      }
    }
  }

  // ----- the JavaScript array GetReaders fills -----

  /**
   * A JavaScript array built with Napi::Array::Set: the elements stored so
   * far by index, and `length`, one past the highest index ever set.
   */
  datatype JsArray = JsArray(slots: map<nat, string>, length: nat)

  const EmptyArray := JsArray(map[], 0)

  /** `readers.Set(k, v)`. */
  function SetAt(a: JsArray, k: nat, v: string): (r: JsArray)
    ensures r.slots == a.slots[k := v]
    ensures r.length == if k < a.length then a.length else k + 1
  {
    JsArray(a.slots[k := v], if k < a.length then a.length else k + 1)
  }

  /** No holes: exactly the indexes below `length` hold an element. */
  ghost predicate Dense(a: JsArray) {
    forall k: nat :: k in a.slots <==> k < a.length
  }

  /** The elements of a dense array, in index order. */
  function Elements(a: JsArray): (s: seq<string>)
    requires Dense(a)
    ensures |s| == a.length
    ensures forall k :: 0 <= k < |s| ==> s[k] == a.slots[k]
  {
    seq(a.length, k requires 0 <= k < a.length && Dense(a) => a.slots[k])
  }

  /** The state of the GetReaders loop: the array so far and the counter `i`. */
  datatype Walk = Walk(readers: JsArray, i: nat)

  /** One turn of the loop: an ACR122U name goes to index 0 and resets i to 1; any other name goes to index i++. */
  function Place(w: Walk, readerName: string): (r: Walk)
    ensures || (r.i == 1 && 0 in r.readers.slots && r.readers.slots[0] == readerName)
            || (r.i == w.i + 1 && w.i in r.readers.slots && r.readers.slots[w.i] == readerName)
  {
    if IsAcr122u(readerName) then Walk(SetAt(w.readers, 0, readerName), 1)
    else Walk(SetAt(w.readers, w.i, readerName), w.i + 1)
  }

  /** The loop's state after visiting `names` in order, starting from an empty array and i = 0. */
  function PlaceAll(names: seq<string>): Walk
    decreases |names|
  {
    if names == [] then Walk(EmptyArray, 0)
    else Place(PlaceAll(names[..|names| - 1]), names[|names| - 1])
  }

  lemma PlaceAllSnoc(names: seq<string>, readerName: string)
    ensures PlaceAll(names + [readerName]) == Place(PlaceAll(names), readerName)
  {
    assert (names + [readerName])[..|names|] == names;
  }

  /**
   * Every index the loop writes is at most the array's current length, so
   * the array never has a hole; it holds at most one element per name, and
   * every element is one of the names.
   */
  lemma {:induction false} PlaceAllShape(names: seq<string>)
    ensures var w := PlaceAll(names);
      && Dense(w.readers)
      && w.i <= w.readers.length <= |names|
      && (names != [] ==> 1 <= w.i)
      && forall k: nat :: k in w.readers.slots ==> w.readers.slots[k] in names
    decreases |names|
  {
    if names != [] {
      var init := names[..|names| - 1];
      PlaceAllShape(init);
      var w := PlaceAll(init);
      forall k: nat | k in w.readers.slots
        ensures w.readers.slots[k] in names
      {
        assert w.readers.slots[k] in init;
      }
    }
  }

  /** With no ACR122U reader, the array lists the names in the order SCardListReaders gave them. */
  lemma {:induction false} PlaceAllWithoutAcr(names: seq<string>)
    requires forall k :: 0 <= k < |names| ==> !IsAcr122u(names[k])
    ensures Dense(PlaceAll(names).readers)
    ensures Elements(PlaceAll(names).readers) == names
    ensures PlaceAll(names).i == |names|
    decreases |names|
  {
    PlaceAllShape(names);
    if names != [] {
      PlaceAllWithoutAcr(names[..|names| - 1]);
    }
  }

  /**
   * With an ACR122U name at position j and none after it, index 0 holds that
   * name, the names after it follow at indexes 1, 2, ... in order, and i
   * counts them; whatever earlier names sit beyond them are leftovers.
   */
  lemma {:induction false} PlaceAllAfterLastAcr(names: seq<string>, j: nat)
    requires j < |names| && IsAcr122u(names[j])
    requires forall k :: j < k < |names| ==> !IsAcr122u(names[k])
    ensures PlaceAll(names).i == |names| - j
    ensures forall t :: 0 <= t < |names| - j ==>
      t in PlaceAll(names).readers.slots && PlaceAll(names).readers.slots[t] == names[j + t]
    decreases |names|
  {
    var init := names[..|names| - 1];
    var last := names[|names| - 1];
    if j < |names| - 1 {
      PlaceAllAfterLastAcr(init, j);
      var w := PlaceAll(init);
      assert PlaceAll(names) == Walk(SetAt(w.readers, w.i, last), w.i + 1);
    }
  }

  /** So the last ACR122U name in the list always ends up at index 0. */
  lemma LastAcrComesFirst(names: seq<string>, j: nat)
    requires j < |names| && IsAcr122u(names[j])
    requires forall k :: j < k < |names| ==> !IsAcr122u(names[k])
    ensures Dense(PlaceAll(names).readers) && PlaceAll(names).i == |names| - j
    ensures Elements(PlaceAll(names).readers)[0] == names[j]
    ensures Elements(PlaceAll(names).readers)[..|names| - j] == names[j..]
  {
    PlaceAllAfterLastAcr(names, j);
    PlaceAllShape(names);
  }

  /**
   * The reader-ordering loop of GetReaders: walk the multi-string name by
   * name and Set each name into the array at index 0 (ACR122U) or i++.
   */
  method GetReaders(mszReaders: string) returns (readers: JsArray)
    requires WellTerminated(mszReaders)
    ensures readers == PlaceAll(Names(mszReaders)).readers
    ensures Dense(readers) && readers.length <= |Names(mszReaders)|
  {
    readers := EmptyArray;
    var i: nat := 0;
    var pReader: nat := 0;
    ghost var seen: seq<string> := [];
    while mszReaders[pReader] != '\0'
      invariant pReader < |mszReaders|
      invariant Names(mszReaders) == seen + NamesFrom(mszReaders, pReader)
      invariant readers == PlaceAll(seen).readers && i == PlaceAll(seen).i
      decreases |mszReaders| - pReader
    {
      var next := NulFrom(mszReaders, pReader);
      NameFits(mszReaders, pReader);
      var readerName := mszReaders[pReader..next];
      readers, i := PlaceReader(readers, i, readerName);
      PlaceAllSnoc(seen, readerName);
      seen := seen + [readerName];
      pReader := next + 1;
    }
    assert NamesFrom(mszReaders, pReader) == [];
    assert Names(mszReaders) == seen;
    PlaceAllShape(seen);
  }

  /** The body of the loop for one name: Set it at index 0 (ACR122U) or at index i++. */
  method PlaceReader(readers: JsArray, i: nat, readerName: string) returns (readers': JsArray, i': nat)
    ensures Walk(readers', i') == Place(Walk(readers, i), readerName)
  {
    if IsAcr122u(readerName) {
      readers' := SetAt(readers, 0, readerName);
      i' := 1;
    } else {
      readers' := SetAt(readers, i, readerName);
      i' := i + 1;
    }
  }

  // ----- the ordering the comment in GetReaders asks for -----

  /** The names with (or without) "ACR122U", in their original order. */
  function Select(names: seq<string>, acr: bool): (r: seq<string>)
    ensures |r| <= |names|
    ensures forall k :: 0 <= k < |r| ==> IsAcr122u(r[k]) == acr
    ensures forall x :: x in r ==> x in names
    decreases |names|
  {
    if names == [] then []
    else (if IsAcr122u(names[0]) == acr then [names[0]] else []) + Select(names[1..], acr)
  }

  /** ACR122U readers first, every other reader after them, nothing lost or reordered within a group. */
  function AcrFirst(names: seq<string>): seq<string> {
    Select(names, true) + Select(names, false)
  }

  lemma {:induction false} SelectSplits(names: seq<string>)
    ensures multiset(Select(names, true)) + multiset(Select(names, false)) == multiset(names)
    decreases |names|
  {
    if names != [] {
      SelectSplits(names[1..]);
      assert names == [names[0]] + names[1..];
    }
  }

  /** AcrFirst is a permutation of the names in which no ACR122U reader follows another reader. */
  lemma AcrFirstIsPartition(names: seq<string>)
    ensures multiset(AcrFirst(names)) == multiset(names)
    ensures |AcrFirst(names)| == |names|
    ensures forall a, b :: 0 <= a < b < |AcrFirst(names)| && IsAcr122u(AcrFirst(names)[b]) ==> IsAcr122u(AcrFirst(names)[a])
  {
    SelectSplits(names);
    assert |multiset(AcrFirst(names))| == |multiset(names)|;
  }

  /** Without ACR122U readers the loop as written and AcrFirst agree. */
  lemma {:induction false} AgreeWithoutAcr(names: seq<string>)
    requires forall k :: 0 <= k < |names| ==> !IsAcr122u(names[k])
    ensures Dense(PlaceAll(names).readers)
    ensures Elements(PlaceAll(names).readers) == AcrFirst(names)
    decreases |names|
  {
    PlaceAllWithoutAcr(names);
    SelectNone(names);
  }

  lemma {:induction false} SelectNone(names: seq<string>)
    requires forall k :: 0 <= k < |names| ==> !IsAcr122u(names[k])
    ensures Select(names, true) == [] && Select(names, false) == names
    decreases |names|
  {
    if names != [] {
      SelectNone(names[1..]);
    }
  }

  lemma {:induction false} SelectSnoc(names: seq<string>, readerName: string, acr: bool)
    ensures Select(names + [readerName], acr) ==
      Select(names, acr) + (if IsAcr122u(readerName) == acr then [readerName] else [])
    decreases |names|
  {
    if names != [] {
      assert (names + [readerName])[1..] == names[1..] + [readerName];
      SelectSnoc(names[1..], readerName, acr);
    }
  }

  /** The state of the corrected loop: the ACR122U names and the other names seen so far. */
  datatype Groups = Groups(acr: seq<string>, others: seq<string>)

  /** One turn of the corrected loop: the name joins its group. */
  function Gather(g: Groups, readerName: string): Groups {
    if IsAcr122u(readerName) then Groups(g.acr + [readerName], g.others)
    else Groups(g.acr, g.others + [readerName])
  }

  function GatherAll(names: seq<string>): Groups
    decreases |names|
  {
    if names == [] then Groups([], [])
    else Gather(GatherAll(names[..|names| - 1]), names[|names| - 1])
  }

  lemma GatherAllSnoc(names: seq<string>, readerName: string)
    ensures GatherAll(names + [readerName]) == Gather(GatherAll(names), readerName)
  {
    assert (names + [readerName])[..|names|] == names;
  }

  /** The groups the corrected loop gathers are the two selections, so joining them gives AcrFirst. */
  lemma {:induction false} GatherAllSelects(names: seq<string>)
    ensures GatherAll(names) == Groups(Select(names, true), Select(names, false))
    decreases |names|
  {
    if names != [] {
      var init := names[..|names| - 1];
      var last := names[|names| - 1];
      GatherAllSelects(init);
      assert names == init + [last];
      SelectSnoc(init, last, true);
      SelectSnoc(init, last, false);
    }
  }

  /**
   * GetReaders' loop with the ordering its comment asks for: ACR122U names
   * and the others are gathered apart, in order, and joined at the end.
   */
  method GetReadersAcrFirst(mszReaders: string) returns (readers: seq<string>)
    requires WellTerminated(mszReaders)
    ensures readers == AcrFirst(Names(mszReaders))
    ensures multiset(readers) == multiset(Names(mszReaders))
  {
    var groups := Groups([], []);
    var pReader: nat := 0;
    ghost var seen: seq<string> := [];
    while mszReaders[pReader] != '\0'
      invariant pReader < |mszReaders|
      invariant Names(mszReaders) == seen + NamesFrom(mszReaders, pReader)
      invariant groups == GatherAll(seen)
      decreases |mszReaders| - pReader
    {
      var next := NulFrom(mszReaders, pReader);
      NameFits(mszReaders, pReader);
      var readerName := mszReaders[pReader..next];
      groups := Gather(groups, readerName);
      GatherAllSnoc(seen, readerName);
      seen := seen + [readerName];
      pReader := next + 1;
    }
    assert NamesFrom(mszReaders, pReader) == [];
    assert Names(mszReaders) == seen;
    GatherAllSelects(seen);
    readers := groups.acr + groups.others;
    AcrFirstIsPartition(seen);
  }

  /**
   * The defect in the loop as written: for [ACR122U-A, X, ACR122U-B, Y] it
   * returns [ACR122U-B, Y]; both ACR122U-A and X are overwritten and lost.
   */
  lemma OrderingLosesReaders()
    ensures var names := ["ACR122U-A", "X", "ACR122U-B", "Y"];
      && Dense(PlaceAll(names).readers)
      && Elements(PlaceAll(names).readers) == ["ACR122U-B", "Y"]
      && AcrFirst(names) == ["ACR122U-A", "ACR122U-B", "X", "Y"]
  {
    var names := ["ACR122U-A", "X", "ACR122U-B", "Y"];
    assert IsAcr122u(names[0]) && IsAcr122u(names[2]);
    assert !IsAcr122u(names[1]) && !IsAcr122u(names[3]);
    var w0 := PlaceAll([]);
    assert [names[0]][..0] == [];
    var w1 := PlaceAll([names[0]]);
    assert w1 == Place(w0, names[0]);
    assert w1 == Walk(JsArray(map[0 := names[0]], 1), 1);
    assert [names[0], names[1]][..1] == [names[0]];
    var w2 := PlaceAll([names[0], names[1]]);
    assert w2 == Place(w1, names[1]);
    assert w2 == Walk(JsArray(map[0 := names[0], 1 := names[1]], 2), 2);
    assert names[..3][..2] == [names[0], names[1]];
    var w3 := PlaceAll(names[..3]);
    assert w3 == Place(w2, names[2]);
    assert w3 == Walk(JsArray(map[0 := names[2], 1 := names[1]], 2), 1);
    var w4 := PlaceAll(names);
    assert w4 == Place(w3, names[3]);
    assert w4 == Walk(JsArray(map[0 := names[2], 1 := names[3]], 2), 2);
    assert Dense(w4.readers);
    assert names[1..][1..][1..][1..] == [];
  }
}
