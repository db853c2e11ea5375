/**
 * Choosing the machine image to boot: `DescribeImages` returns a catalogue,
 * entries without a creation date are dropped, the rest are sorted newest
 * first with a stable sort, and the first entry's `ImageId` is taken.
 * Creation dates are modelled as integer timestamps (what
 * `new Date(...).getTime()` yields for a well-formed date).
 */
module ImageSelection {
  import opened Wrappers

  /** One element of `DescribeImagesResult.Images`; both fields are optional there. */
  datatype Image = Image(imageId: Option<string>, creationDate: Option<int>)

  /** The two distinct errors the selection throws. */
  datatype SelectError =
    | NoImagesFound     // 'No AMIs found that match the given criteria.'
    | NoDatedImageFound // '... after filtering for CreationDate.'

  predicate IsDated(img: Image) {
    img.creationDate.Some?
  }

  predicate AllDated(s: seq<Image>) {
    forall i :: 0 <= i < |s| ==> IsDated(s[i])
  }

  predicate HasDated(s: seq<Image>) {
    exists i :: 0 <= i < |s| && IsDated(s[i])
  }

  /** The entries of `s` whose timestamp is `d`, in order. */
  function WithDate(s: seq<Image>, d: int): seq<Image> {
    if s == [] then []
    else (if s[0].creationDate == Some(d) then [s[0]] else []) + WithDate(s[1..], d)
  }

  /** The `filter(image => image.CreationDate)` step, which keeps catalogue order. */
  function Dated(s: seq<Image>): (r: seq<Image>)
    ensures AllDated(r)
    ensures multiset(r) <= multiset(s)
    ensures r == [] <==> !HasDated(s)
  {
    if s == [] then []
    else
      assert s == [s[0]] + s[1..];
      assert forall i :: 1 <= i < |s| ==> s[i] == s[1..][i - 1];
      if IsDated(s[0]) then [s[0]] + Dated(s[1..]) else Dated(s[1..])
  }

  /** The filter drops no dated entry: every timestamp keeps all its entries, in order. */
  lemma {:induction false} DatedKeepsEveryDate(s: seq<Image>, d: int)
    ensures WithDate(Dated(s), d) == WithDate(s, d)
  {
    if s != [] {
      var rest := Dated(s[1..]);
      DatedKeepsEveryDate(s[1..], d);
      if IsDated(s[0]) {
        assert ([s[0]] + rest)[0] == s[0] && ([s[0]] + rest)[1..] == rest;
      }
    }
  }

  /** The filter distributes over concatenation: it keeps each part's dated entries, in order. */
  lemma {:induction false} DatedConcat(a: seq<Image>, b: seq<Image>)
    ensures Dated(a + b) == Dated(a) + Dated(b)
  {
    if a == [] {
      assert a + b == b;
    } else {
      var x, t := a[0], a[1..];
      var head := if IsDated(x) then [x] else [];
      assert a + b == [x] + (t + b) by {
        assert a == [x] + t;
        Associative([x], t, b);
      }
      DatedCons(x, t + b);
      DatedCons(x, t);
      assert a == [x] + t;
      DatedConcat(t, b);
      Associative(head, Dated(t), Dated(b));
    }
  }

  /** The filter of a sequence with a known first entry. */
  lemma DatedCons(x: Image, t: seq<Image>)
    ensures Dated([x] + t) == (if IsDated(x) then [x] else []) + Dated(t)
  {
    assert ([x] + t)[0] == x && ([x] + t)[1..] == t;
  }

  lemma Associative(x: seq<Image>, y: seq<Image>, z: seq<Image>)
    ensures x + (y + z) == (x + y) + z
  {
  }

  /** The filter of a single entry: the entry if it is dated, nothing otherwise. */
  lemma DatedSingle(x: Image)
    ensures Dated([x]) == if IsDated(x) then [x] else []
  {
    assert [x][1..] == [];
  }

  /** Newest first: no entry is older than one after it. */
  ghost predicate NewestFirst(s: seq<Image>) {
    AllDated(s) &&
    forall i, j :: 0 <= i < j < |s| ==> s[j].creationDate.value <= s[i].creationDate.value
  }

  /**
   * Inserts `x` before the first entry that is not newer than it, so that
   * `x` precedes the entries with its own timestamp that were already there.
   */
  function Insert(x: Image, t: seq<Image>): (r: seq<Image>)
    requires IsDated(x) && AllDated(t)
    ensures AllDated(r)
    ensures multiset(r) == multiset(t) + multiset{x}
  {
    if t == [] || t[0].creationDate.value <= x.creationDate.value then
      [x] + t
    else
      assert t == [t[0]] + t[1..];
      [t[0]] + Insert(x, t[1..])
  }

  /** Insertion puts `x` in front exactly when nothing in front is newer. */
  lemma InsertHead(x: Image, t: seq<Image>)
    requires IsDated(x) && AllDated(t)
    ensures Insert(x, t)[0] == if t == [] || t[0].creationDate.value <= x.creationDate.value then x else t[0]
  {
  }

  /** A dated entry at least as new as the head of a newest-first sequence can go in front. */
  lemma ConsNewestFirst(y: Image, t: seq<Image>)
    requires IsDated(y) && NewestFirst(t)
    requires t == [] || t[0].creationDate.value <= y.creationDate.value
    ensures NewestFirst([y] + t)
  {
    var r := [y] + t;
    forall i, j | 0 <= i < j < |r|
      ensures r[j].creationDate.value <= r[i].creationDate.value
    {
      assert r[j] == t[j - 1];
      if i == 0 {
        assert t[j - 1].creationDate.value <= t[0].creationDate.value;
      } else {
        assert r[i] == t[i - 1];
      }
    }
  }

  /** Insertion into a newest-first sequence keeps it newest first. */
  lemma {:induction false} InsertNewestFirst(x: Image, t: seq<Image>)
    requires IsDated(x) && NewestFirst(t)
    ensures NewestFirst(Insert(x, t))
  {
    if t == [] || t[0].creationDate.value <= x.creationDate.value {
      ConsNewestFirst(x, t);
    } else {
      var tail := t[1..];
      assert NewestFirst(tail) by {
        assert forall i :: 0 <= i < |tail| ==> tail[i] == t[i + 1];
      }
      InsertNewestFirst(x, tail);
      InsertHead(x, tail);
      ConsNewestFirst(t[0], Insert(x, tail));
    }
  }

  /**
   * The `sort((a, b) => b - a)` step over timestamps.  `Array.prototype.sort`
   * is stable, so this is an insertion sort that keeps ties in input order.
   */
  function SortNewestFirst(s: seq<Image>): (r: seq<Image>)
    requires AllDated(s)
    ensures AllDated(r)
    ensures NewestFirst(r)
    ensures multiset(r) == multiset(s)
  {
    if s == [] then []
    else
      assert s == [s[0]] + s[1..];
      var t := SortNewestFirst(s[1..]);
      InsertNewestFirst(s[0], t);
      Insert(s[0], t)
  }

  /** The whole of lines 21-33: `Images` may be absent. */
  function SelectImage(images: Option<seq<Image>>): (r: Result<Option<string>, SelectError>)
    ensures r == Err(NoImagesFound) <==> images == None || images == Some([])
    ensures r == Err(NoDatedImageFound) <==> images.Some? && images.value != [] && !HasDated(images.value)
  {
    if images.None? || |images.value| == 0 then Err(NoImagesFound)
    else
      var sorted := SortNewestFirst(Dated(images.value));
      if |sorted| == 0 then Err(NoDatedImageFound)
      else Ok(sorted[0].imageId)
  }

  /**
   * The entry the selection must choose: it is dated, no dated entry is
   * newer, and every dated entry before it is strictly older.
   */
  ghost predicate IsFirstNewest(s: seq<Image>, k: int) {
    0 <= k < |s| && IsDated(s[k]) &&
    (forall j :: 0 <= j < |s| && IsDated(s[j]) ==> s[j].creationDate.value <= s[k].creationDate.value) &&
    (forall j :: 0 <= j < k && IsDated(s[j]) ==> s[j].creationDate.value < s[k].creationDate.value)
  }

  /** How the first newest entry of `s` follows from that of `s[1..]`. */
  lemma FirstNewestCons(s: seq<Image>, k': nat)
    requires |s| > 0 && IsFirstNewest(s[1..], k')
    ensures if IsDated(s[0]) && s[k' + 1].creationDate.value <= s[0].creationDate.value
            then IsFirstNewest(s, 0) else IsFirstNewest(s, k' + 1)
  {
    var rest := s[1..];
    assert forall j :: 1 <= j < |s| ==> s[j] == rest[j - 1];
  }

  /** The head of the sorted dated entries is the first newest catalogue entry. */
  lemma {:induction false} SortedHead(s: seq<Image>) returns (k: nat)
    requires HasDated(s)
    ensures IsFirstNewest(s, k)
    ensures SortNewestFirst(Dated(s)) != [] && SortNewestFirst(Dated(s))[0] == s[k]
  {
    var rest := s[1..];
    assert s == [s[0]] + rest;
    if !HasDated(rest) {
      assert IsDated(s[0]) by {
        var i :| 0 <= i < |s| && IsDated(s[i]);
      }
      k := 0;
      assert forall j :: 1 <= j < |s| ==> !IsDated(s[j]) by {
        forall j | 1 <= j < |s| ensures !IsDated(s[j]) {
          assert s[j] == rest[j - 1];
        }
      }
      assert Dated(s) == [s[0]];
    } else {
      var k' := SortedHead(rest);
      assert s[k' + 1] == rest[k'];
      var first := IsDated(s[0]) && rest[k'].creationDate.value <= s[0].creationDate.value;
      k := if first then 0 else k' + 1;
      assert IsFirstNewest(s, k) by {
        FirstNewestCons(s, k');
      }
      var t := SortNewestFirst(Dated(rest));
      if IsDated(s[0]) {
        assert Dated(s) == [s[0]] + Dated(rest);
        assert SortNewestFirst(Dated(s)) == Insert(s[0], t) by {
          assert ([s[0]] + Dated(rest))[1..] == Dated(rest);
        }
        InsertHead(s[0], t);
      } else {
        assert Dated(s) == Dated(rest);
      }
    }
  }

  /**
   * With at least one dated entry, the selection returns the `ImageId` of
   * the first newest one: undated entries are never chosen, and among equal
   * newest timestamps the earliest listed wins.
   */
  lemma SelectsFirstNewest(s: seq<Image>) returns (k: nat)
    requires HasDated(s)
    ensures IsFirstNewest(s, k)
    ensures SelectImage(Some(s)) == Ok(s[k].imageId)
  {
    k := SortedHead(s);
  }

  /** Insertion keeps the entries of every timestamp in their order. */
  lemma {:induction false} InsertStable(x: Image, t: seq<Image>, d: int)
    requires IsDated(x) && AllDated(t)
    ensures WithDate(Insert(x, t), d) == (if x.creationDate == Some(d) then [x] else []) + WithDate(t, d)
  {
    var own := if x.creationDate == Some(d) then [x] else [];
    if t == [] || t[0].creationDate.value <= x.creationDate.value {
      assert ([x] + t)[1..] == t;
    } else {
      var tail := t[1..];
      var head := if t[0].creationDate == Some(d) then [t[0]] else [];
      var r := [t[0]] + Insert(x, tail);
      assert r[0] == t[0] && r[1..] == Insert(x, tail);
      assert WithDate(r, d) == head + WithDate(Insert(x, tail), d);
      assert WithDate(t, d) == head + WithDate(tail, d);
      assert AllDated(tail) by {
        assert forall i :: 0 <= i < |tail| ==> tail[i] == t[i + 1];
      }
      InsertStable(x, tail, d);
      if x.creationDate == Some(d) {
        assert head == [];
        assert head + WithDate(Insert(x, tail), d) == own + WithDate(tail, d);
        assert own + WithDate(t, d) == own + WithDate(tail, d);
      } else {
        assert own == [];
        assert WithDate(Insert(x, tail), d) == WithDate(tail, d);
        assert own + WithDate(t, d) == WithDate(t, d);
      }
    }
  }

  /** The sort is stable: for every timestamp, those entries keep their order. */
  lemma {:induction false} SortStable(s: seq<Image>, d: int)
    requires AllDated(s)
    ensures WithDate(SortNewestFirst(s), d) == WithDate(s, d)
  {
    if s != [] {
      assert s == [s[0]] + s[1..];
      SortStable(s[1..], d);
      InsertStable(s[0], SortNewestFirst(s[1..]), d);
    }
  }
  /**
   * The filter and the sort together keep every dated entry of the
   * catalogue, in catalogue order among the entries of each timestamp.
   */
  lemma SortedKeepsDated(s: seq<Image>, d: int)
    ensures WithDate(SortNewestFirst(Dated(s)), d) == WithDate(s, d)
  {
    SortStable(Dated(s), d);
    DatedKeepsEveryDate(s, d);
  }

}
