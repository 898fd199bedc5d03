/**
 The container of a form's fields, and the parser and printer as they run.
 */
module MultipartFields {
  import opened Multipart
  import opened MultipartRoundTrip

  // ----- the order of names

  lemma {:induction false} LessTotal(a: string, b: string)
    ensures Less(a, b) || Less(b, a) || a == b
    ensures !(Less(a, b) && Less(b, a)) && (a == b ==> !Less(a, b))
    decreases |a|
  {
    if a != "" && b != "" {
      LessTotal(a[1..], b[1..]);
      assert a == [a[0]] + a[1..] && b == [b[0]] + b[1..];
    }
  }

  lemma {:induction false} LessTransitive(a: string, b: string, c: string)
    requires Less(a, b) && Less(b, c)
    ensures Less(a, c)
    decreases |a|
  {
    if a != "" && a[0] == b[0] == c[0] {
      LessTransitive(a[1..], b[1..], c[1..]);
    }
  }

  lemma {:induction false} UpperBoundIs(fs: seq<Field>, name: string)
    ensures forall i | 0 <= i < UpperBound(fs, name) :: !Less(name, fs[i].name)
    ensures UpperBound(fs, name) < |fs| ==> Less(name, fs[UpperBound(fs, name)].name)
    decreases |fs|
  {
    if fs != [] && !Less(name, fs[0].name) {
      UpperBoundIs(fs[1..], name);
      forall i | 0 <= i < UpperBound(fs, name)
        ensures !Less(name, fs[i].name)
      {
        if i > 0 { assert fs[i] == fs[1..][i - 1]; }
      }
    }
  }

  /** Behind the upper bound every name is greater. */
  lemma BehindIsGreater(fs: seq<Field>, name: string, i: nat)
    requires InOrder(fs) && UpperBound(fs, name) <= i < |fs|
    ensures Less(name, fs[i].name) && !Less(fs[i].name, name) && fs[i].name != name
  {
    var k := UpperBound(fs, name);
    UpperBoundIs(fs, name);
    var a, b := fs[k].name, fs[i].name;
    LessTotal(a, b);
    if k < i && a != b {
      assert !Less(fs[i].name, fs[k].name);
      LessTransitive(name, a, b);
    }
    LessTotal(name, b);
  }

  lemma InsertAt(fs: seq<Field>, f: Field, i: nat)
    requires i <= |fs|
    ensures var k := UpperBound(fs, f.name);
            |Insert(fs, f)| == |fs| + 1 && Insert(fs, f)[i] == if i < k then fs[i] else if i == k then f else fs[i - 1]
  {
  }

  /** Inserting keeps the names in order. */
  lemma InsertKeepsOrder(fs: seq<Field>, f: Field)
    requires InOrder(fs)
    ensures InOrder(Insert(fs, f))
  {
    var gs, k := Insert(fs, f), UpperBound(fs, f.name);
    UpperBoundIs(fs, f.name);
    InsertAt(fs, f, 0);
    hide Insert, UpperBound, Less;
    forall i, j | 0 <= i < j < |gs|
      ensures !Less(gs[j].name, gs[i].name)
    {
      InsertAt(fs, f, i);
      InsertAt(fs, f, j);
      if i == k {
        BehindIsGreater(fs, f.name, j - 1);
      }
    }
  }

  /** The fields of one name, in order. */
  function Called(fs: seq<Field>, name: string): seq<Field> {
    if fs == [] then []
    else Called(fs[..|fs| - 1], name) + if fs[|fs| - 1].name == name then [fs[|fs| - 1]] else []
  }

  lemma {:induction false} CalledConcat(a: seq<Field>, b: seq<Field>, name: string)
    ensures Called(a + b, name) == Called(a, name) + Called(b, name)
    decreases |b|
  {
    if b == [] {
      assert a + b == a;
    } else {
      var front := b[..|b| - 1];
      assert (a + b)[..|a + b| - 1] == a + front;
      CalledConcat(a, front, name);
    }
  }

  lemma {:induction false} NoneCalled(fs: seq<Field>, name: string)
    requires forall i | 0 <= i < |fs| :: fs[i].name != name
    ensures Called(fs, name) == []
    decreases |fs|
  {
    if fs != [] {
      NoneCalled(fs[..|fs| - 1], name);
    }
  }

  /** A field comes behind those of its name, and changes nothing about those of others. */
  lemma InsertIsStable(fs: seq<Field>, f: Field, name: string)
    requires InOrder(fs)
    ensures Called(Insert(fs, f), name) == Called(fs, name) + if f.name == name then [f] else []
  {
    hide *;
    InsertIs(fs, f);
    var k := UpperBound(fs, f.name);
    CalledThree(fs[..k], f, fs[k..], name);
    CalledConcat(fs[..k], fs[k..], name);
    assert fs[..k] + fs[k..] == fs;
    OneCalled(f, name);
    if f.name == name {
      NoneBehind(fs, f);
    }
  }

  lemma InsertIs(fs: seq<Field>, f: Field)
    ensures Insert(fs, f) == fs[..UpperBound(fs, f.name)] + [f] + fs[UpperBound(fs, f.name)..]
  {
  }

  lemma CalledThree(a: seq<Field>, f: Field, b: seq<Field>, name: string)
    ensures Called(a + [f] + b, name) == Called(a, name) + Called([f], name) + Called(b, name)
  {
    hide Called;
    CalledConcat(a + [f], b, name);
    CalledConcat(a, [f], name);
  }

  lemma OneCalled(f: Field, name: string)
    ensures Called([f], name) == if f.name == name then [f] else []
  {
    assert [f][..0] == [];
  }

  lemma NoneBehind(fs: seq<Field>, f: Field)
    requires InOrder(fs)
    ensures Called(fs[UpperBound(fs, f.name)..], f.name) == []
  {
    var k := UpperBound(fs, f.name);
    hide InOrder, Less, UpperBound, Called;
    forall i | 0 <= i < |fs[k..]|
      ensures fs[k..][i].name != f.name
    {
      BehindIsGreater(fs, f.name, k + i);
    }
    NoneCalled(fs[k..], f.name);
  }

  function InsertAll(added: seq<Field>): seq<Field> {
    if added == [] then [] else Insert(InsertAll(added[..|added| - 1]), added[|added| - 1])
  }

  /** After any run of inserting the names are in order, and equal names in the order of inserting. */
  lemma {:induction false} InsertedInOrder(added: seq<Field>, name: string)
    ensures InOrder(InsertAll(added)) && Called(InsertAll(added), name) == Called(added, name)
    decreases |added|
  {
    if added != [] {
      InsertedInOrder(added[..|added| - 1], name);
      var fs, f := InsertAll(added[..|added| - 1]), added[|added| - 1];
      InsertKeepsOrder(fs, f);
      InsertIsStable(fs, f, name);
    }
  }

  // ----- the container

  /** An entry of the multimap: a name and the list element it points to. */
  datatype Entry = Entry(key: string, field: Field)

  class FieldList {
    var boundary: string
    var list: seq<Field>
    var index: seq<Entry>

    /** The entries stand where the fields they point to do, and the names are in order. */
    ghost predicate Valid()
      reads this
    {
      && |index| == |list| && InOrder(list)
      && forall i | 0 <= i < |list| :: index[i] == Entry(list[i].name, list[i])
    }

    constructor (boundary: string)
      ensures Valid() && this.boundary == boundary && list == []
    {
      this.boundary, list, index := boundary, [], [];
    }

    /** The place the multimap gives to a new entry: behind all keys that are not greater. */
    method Place(key: string) returns (k: nat)
      requires Valid()
      ensures k == UpperBound(list, key)
    {
      k := 0;
      while k < |index| && !Less(key, index[k].key)
        invariant k <= |index| && UpperBound(list, key) == k + UpperBound(list[k..], key)
      {
        assert list[k..][1..] == list[k + 1..];
        k := k + 1;
      }
    }

    method Insert(f: Field) returns (k: nat)
      requires Valid()
      modifies `list, `index
      ensures Valid() && list == Multipart.Insert(old(list), f) && k < |list| && list[k] == f
    {
      k := Place(f.name);
      InsertKeepsOrder(list, f);
      index := index[..k] + [Entry(f.name, f)] + index[k..];
      list := list[..k] + [f] + list[k..];
    }

    /** The fields of a name are exactly those from `lo` to `hi`; without any, both are the end. */
    method EqualRange(name: string) returns (lo: nat, hi: nat)
      requires Valid()
      ensures lo <= hi <= |list|
      ensures lo == hi ==> lo == |list|
      ensures forall i | 0 <= i < |list| :: list[i].name == name <==> lo <= i < hi
    {
      lo := 0;
      while lo < |index| && Less(index[lo].key, name)
        invariant lo <= |index| && forall i | 0 <= i < lo :: Less(list[i].name, name)
      {
        lo := lo + 1;
      }
      hi := lo;
      while hi < |index| && !Less(name, index[hi].key)
        invariant lo <= hi <= |index| && forall i | lo <= i < hi :: !Less(name, list[i].name)
      {
        hi := hi + 1;
      }
      forall i | 0 <= i < |list|
        ensures list[i].name == name <==> lo <= i < hi
      {
        RangeIs(list, name, lo, hi, i);
      }
      if lo == hi {
        lo, hi := |list|, |list|;
      }
    }

    /** `find`: a field of the name, or the end. */
    method Find(name: string) returns (k: nat)
      requires Valid()
      ensures k < |list| ==> list[k].name == name
      ensures k >= |list| ==> k == |list| && forall i | 0 <= i < |list| :: list[i].name != name
    {
      var lo, hi := EqualRange(name);
      k := if lo < hi then lo else |list|;
    }
  }

  lemma RangeIs(fs: seq<Field>, name: string, lo: nat, hi: nat, i: nat)
    requires InOrder(fs) && lo <= hi <= |fs| && i < |fs|
    requires forall j | 0 <= j < lo :: Less(fs[j].name, name)
    requires forall j | lo <= j < hi :: !Less(name, fs[j].name)
    requires lo < |fs| ==> !Less(fs[lo].name, name)
    requires hi < |fs| ==> Less(name, fs[hi].name)
    ensures fs[i].name == name <==> lo <= i < hi
  {
    var b := fs[i].name;
    LessTotal(b, name);
    if lo <= i < hi {
      var a := fs[lo].name;
      LessTotal(a, b);
      if lo < i && a != b && b != name {
        assert !Less(fs[i].name, fs[lo].name);
        LessTransitive(a, b, name);
      }
    } else if hi <= i {
      var a := fs[hi].name;
      LessTotal(a, b);
      if hi < i && a != b {
        assert !Less(fs[i].name, fs[hi].name);
        LessTransitive(name, a, b);
      }
      LessTotal(name, name);
    }
  }
}
