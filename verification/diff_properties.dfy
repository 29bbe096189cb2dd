/** Properties of the deep diff that relate several calls: swapping the arguments swaps the
    result, the diff of a diff is itself, and the array diff keeps exactly the differing
    positions of the zipped prefix. */
module DiffProperties {
  import opened Results
  import opened JsonDiff

  function Swap(r: Option<Sides>): Option<Sides> {
    match r
    case None => None
    case Some(p) => Some((p.1, p.0))
  }

  /** Diffing in the other order gives the same two sides, exchanged. */
  lemma {:induction false} DiffSymmetric(a: Json, b: Json)
    ensures Diff(b, a) == Swap(Diff(a, b))
    decreases a, 2
  {
    if a != b && KindOf(a) == KindOf(b) {
      if a.JObject? {
        DictDiffSymmetric(a, b);
      } else if a.JArray? {
        ListDiffSymmetric(a.elems, b.elems);
      }
    }
  }

  lemma {:induction false} ZipDiffSymmetric(xs: seq<Json>, ys: seq<Json>)
    ensures ZipDiff(ys, xs) == (ZipDiff(xs, ys).1, ZipDiff(xs, ys).0)
    decreases xs, 0
  {
    if |xs| > 0 && |ys| > 0 {
      DiffSymmetric(xs[0], ys[0]);
      ZipDiffSymmetric(xs[1..], ys[1..]);
    }
  }

  lemma {:induction false} ListDiffSymmetric(xs: seq<Json>, ys: seq<Json>)
    ensures ListDiff(ys, xs) == (ListDiff(xs, ys).1, ListDiff(xs, ys).0)
    decreases xs, 1
  {
    ZipDiffSymmetric(xs, ys);
  }

  lemma {:induction false} DictDiffSymmetric(a: Json, b: Json)
    requires a.JObject? && b.JObject?
    ensures DictDiff(b, a) == (DictDiff(a, b).1, DictDiff(a, b).0)
    decreases a, 1
  {
    forall k | k in a.fields && k in b.fields
      ensures Diff(b.fields[k], a.fields[k]) == Swap(Diff(a.fields[k], b.fields[k]))
    {
      DiffSymmetric(a.fields[k], b.fields[k]);
    }
    var d, e := DictDiff(a, b), DictDiff(b, a);
    SameNarrowing(e.0.fields, d.1.fields, b.fields);
    SameNarrowing(e.1.fields, d.0.fields, a.fields);
  }

  /** The diff is its own fixed point: diffing the two sides of a diff gives them back
      unchanged, so nothing in a diff's output is equal on both sides. */
  lemma {:induction false} DiffOfDiff(a: Json, b: Json)
    requires a != b
    ensures Diff(Diff(a, b).value.0, Diff(a, b).value.1) == Diff(a, b)
    decreases a, 2
  {
    if KindOf(a) == KindOf(b) {
      if a.JObject? {
        DictDiffOfDictDiff(a, b);
      } else if a.JArray? {
        ListDiffOfListDiff(a.elems, b.elems);
      }
    }
  }

  lemma {:induction false} ZipDiffOfZipDiff(xs: seq<Json>, ys: seq<Json>)
    ensures ZipDiff(ZipDiff(xs, ys).0, ZipDiff(xs, ys).1) == ZipDiff(xs, ys)
    decreases xs, 0
  {
    if |xs| > 0 && |ys| > 0 {
      ZipDiffOfZipDiff(xs[1..], ys[1..]);
      var z := ZipDiff(xs, ys);
      var rest := ZipDiff(xs[1..], ys[1..]);
      if Diff(xs[0], ys[0]).Some? {
        DiffOfDiff(xs[0], ys[0]);
        assert z.0[1..] == rest.0 && z.1[1..] == rest.1;
      }
    }
  }

  /** The array loop reads only the zipped prefix: extra elements on one side change nothing. */
  lemma {:induction false} ZipDiffIgnoresTail(xs: seq<Json>, ys: seq<Json>, t: seq<Json>)
    requires |xs| == |ys|
    ensures ZipDiff(xs + t, ys) == ZipDiff(xs, ys)
    ensures ZipDiff(xs, ys + t) == ZipDiff(xs, ys)
  {
    if |xs| > 0 {
      assert (xs + t)[1..] == xs[1..] + t;
      assert (ys + t)[1..] == ys[1..] + t;
      ZipDiffIgnoresTail(xs[1..], ys[1..], t);
    }
  }

  lemma {:induction false} ListDiffOfListDiff(xs: seq<Json>, ys: seq<Json>)
    ensures ListDiff(ListDiff(xs, ys).0, ListDiff(xs, ys).1) == ListDiff(xs, ys)
    decreases xs, 1
  {
    var z := ZipDiff(xs, ys);
    ZipDiffOfZipDiff(xs, ys);
    if |xs| < |ys| {
      ZipDiffIgnoresTail(z.0, z.1, ys[|xs|..]);
    } else if |ys| < |xs| {
      ZipDiffIgnoresTail(z.0, z.1, xs[|ys|..]);
    }
  }

  lemma {:induction false} DictDiffOfDictDiff(a: Json, b: Json)
    requires a.JObject? && b.JObject? && a != b
    ensures DictDiff(DictDiff(a, b).0, DictDiff(a, b).1) == DictDiff(a, b)
    decreases a, 1
  {
    var d := DictDiff(a, b);
    var e := DictDiff(d.0, d.1);
    forall k | k in d.0.fields && k in d.1.fields
      ensures Diff(d.0.fields[k], d.1.fields[k]) == Some((d.0.fields[k], d.1.fields[k]))
    {
      assert k in a.fields && k in b.fields && a.fields[k] != b.fields[k];
      DiffOfDiff(a.fields[k], b.fields[k]);
    }
    SameNarrowing(e.0.fields, d.0.fields, d.0.fields);
    SameNarrowing(e.1.fields, d.1.fields, d.1.fields);
  }

  /** Two maps that keep the same keys of `m` and agree wherever both are defined are equal. */
  lemma SameNarrowing(x: map<string, Json>, y: map<string, Json>, m: map<string, Json>)
    requires x.Keys <= m.Keys && y.Keys <= m.Keys
    requires forall k :: k in m ==> (k in x <==> k in y)
    requires forall k :: k in x && k in y ==> x[k] == y[k]
    ensures x == y
  {
  }

  /** The positions from `i` on, within the zipped prefix of two lists, at which they differ,
      in increasing order. */
  function DifferingFrom(xs: seq<Json>, ys: seq<Json>, i: nat): (ps: seq<nat>)
    requires i <= |xs| && i <= |ys|
    ensures forall j :: 0 <= j < |ps| ==> i <= ps[j] < |xs| && ps[j] < |ys| && xs[ps[j]] != ys[ps[j]]
    ensures forall j, k :: 0 <= j < k < |ps| ==> ps[j] < ps[k]
    ensures forall p :: i <= p < |xs| && p < |ys| && xs[p] != ys[p] ==> p in ps
    decreases |xs| - i
  {
    if i == |xs| || i == |ys| then []
    else
      var rest := DifferingFrom(xs, ys, i + 1);
      if xs[i] != ys[i] then [i] + rest else rest
  }

  /** The positions of the zipped prefix at which two lists differ. */
  function DifferingPositions(xs: seq<Json>, ys: seq<Json>): seq<nat> {
    DifferingFrom(xs, ys, 0)
  }

  /** `list_diff`'s loop keeps exactly the differing positions of the zipped prefix, in order:
      its j-th left and right parts are the two sides of the diff at the j-th such position. */
  lemma ZipDiffKeepsDifferingPositions(xs: seq<Json>, ys: seq<Json>)
    ensures |ZipDiff(xs, ys).0| == |DifferingPositions(xs, ys)|
    ensures forall j :: 0 <= j < |DifferingPositions(xs, ys)| ==>
      var p := DifferingPositions(xs, ys)[j];
      Diff(xs[p], ys[p]) == Some((ZipDiff(xs, ys).0[j], ZipDiff(xs, ys).1[j]))
  {
    assert xs[0..] == xs && ys[0..] == ys;
    ZipDiffKeepsDifferingFrom(xs, ys, 0);
  }

  lemma {:induction false} ZipDiffKeepsDifferingFrom(xs: seq<Json>, ys: seq<Json>, i: nat)
    requires i <= |xs| && i <= |ys|
    ensures |ZipDiff(xs[i..], ys[i..]).0| == |DifferingFrom(xs, ys, i)|
    ensures forall j :: 0 <= j < |DifferingFrom(xs, ys, i)| ==>
      var p := DifferingFrom(xs, ys, i)[j];
      Diff(xs[p], ys[p]) == Some((ZipDiff(xs[i..], ys[i..]).0[j], ZipDiff(xs[i..], ys[i..]).1[j]))
    decreases |xs| - i
  {
    if i < |xs| && i < |ys| {
      ZipDiffKeepsDifferingFrom(xs, ys, i + 1);
      var z, zr := ZipDiff(xs[i..], ys[i..]), ZipDiff(xs[i + 1..], ys[i + 1..]);
      var ps, rest := DifferingFrom(xs, ys, i), DifferingFrom(xs, ys, i + 1);
      ZipDiffStep(xs[i..], ys[i..]);
      assert xs[i..][1..] == xs[i + 1..] && ys[i..][1..] == ys[i + 1..];
      if xs[i] != ys[i] {
        var d := Diff(xs[i], ys[i]).value;
        assert z == ([d.0] + zr.0, [d.1] + zr.1);
        assert ps == [i] + rest;
        forall j | 1 <= j < |ps|
          ensures Diff(xs[ps[j]], ys[ps[j]]) == Some((z.0[j], z.1[j]))
        {
          ConsAt(ps, i, rest, j);
          ConsAt(z.0, d.0, zr.0, j);
          ConsAt(z.1, d.1, zr.1, j);
        }
      } else {
        assert z == zr;
        assert ps == rest;
      }
    }
  }

  lemma ConsAt<T>(s: seq<T>, x: T, rest: seq<T>, j: nat)
    requires s == [x] + rest && 1 <= j < |s|
    ensures s[j] == rest[j - 1]
  {
  }

  /** One turn of the array loop. */
  lemma ZipDiffStep(xs: seq<Json>, ys: seq<Json>)
    requires |xs| > 0 && |ys| > 0
    ensures xs[0] == ys[0] ==> ZipDiff(xs, ys) == ZipDiff(xs[1..], ys[1..])
    ensures xs[0] != ys[0] ==>
      ZipDiff(xs, ys) == ([Diff(xs[0], ys[0]).value.0] + ZipDiff(xs[1..], ys[1..]).0,
                          [Diff(xs[0], ys[0]).value.1] + ZipDiff(xs[1..], ys[1..]).1)
  {
  }

  /** Two payloads that differ only in the nested field `message.hello`: the diff names that
      field, with its two values, and drops the equal field `id`. */
  lemma NestedFieldDiff()
    ensures
      var left := JObject(map["id" := JInt(1), "message" := JObject(map["hello" := JString("A")])]);
      var right := JObject(map["id" := JInt(1), "message" := JObject(map["hello" := JString("B")])]);
      Diff(left, right) == Some((JObject(map["message" := JObject(map["hello" := JString("A")])]),
                                 JObject(map["message" := JObject(map["hello" := JString("B")])])))
  {
    var innerA, innerB := JObject(map["hello" := JString("A")]), JObject(map["hello" := JString("B")]);
    var left := JObject(map["id" := JInt(1), "message" := innerA]);
    var right := JObject(map["id" := JInt(1), "message" := innerB]);
    SingleFieldDiff("hello", JString("A"), JString("B"));
    assert left.fields != right.fields by { assert left.fields["message"] != right.fields["message"]; }
    var outer := DictDiff(left, right);
    assert outer.0.fields["message"] == innerA && outer.1.fields["message"] == innerB;
    SameNarrowing(outer.0.fields, map["message" := innerA], left.fields);
    SameNarrowing(outer.1.fields, map["message" := innerB], right.fields);
  }

  /** Objects with one field whose values differ diff to themselves. */
  lemma SingleFieldDiff(k: string, x: Json, y: Json)
    requires x != y && !(x.JObject? || x.JArray?)
    ensures Diff(JObject(map[k := x]), JObject(map[k := y])) == Some((JObject(map[k := x]), JObject(map[k := y])))
  {
    var a, b := JObject(map[k := x]), JObject(map[k := y]);
    assert a.fields[k] != b.fields[k];
    var d := DictDiff(a, b);
    SameNarrowing(d.0.fields, a.fields, a.fields);
    SameNarrowing(d.1.fields, b.fields, b.fields);
  }
}
