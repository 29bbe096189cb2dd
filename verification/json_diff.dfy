/** Parsed JSON values and the deep structural diff of `diff`, `list_diff` and `dict_diff`. */
module JsonDiff {
  import opened Results

  /** A value produced by `json.loads`. Numbers are integers only and booleans are their own
      kind, so Python's `True == 1` does not arise. */
  datatype Json =
    | JNull
    | JBool(b: bool)
    | JInt(i: int)
    | JString(s: string)
    | JArray(elems: seq<Json>)
    | JObject(fields: map<string, Json>)

  /** The Python type of a value, which `diff` compares with `type(a) != type(b)`. */
  datatype Kind = NullKind | BoolKind | IntKind | StringKind | ArrayKind | ObjectKind

  function KindOf(j: Json): Kind {
    match j
    case JNull => NullKind
    case JBool(_) => BoolKind
    case JInt(_) => IntKind
    case JString(_) => StringKind
    case JArray(_) => ArrayKind
    case JObject(_) => ObjectKind
  }

  /** A pair of values, one per side of a comparison. */
  type Sides = (Json, Json)

  /** `diff(a, b)`: `None` when the values are equal, otherwise the pair of what differs.
      Objects and arrays of the same kind are narrowed to their differing parts; any other
      unequal pair is returned whole. The two sides of a result always differ and keep the
      kinds of the inputs. */
  function Diff(a: Json, b: Json): (r: Option<Sides>)
    ensures r.None? <==> a == b
    ensures a != b && (KindOf(a) != KindOf(b) || !(a.JObject? || a.JArray?)) ==> r == Some((a, b))
    ensures r.Some? ==> r.value.0 != r.value.1
    ensures r.Some? ==> KindOf(r.value.0) == KindOf(a) && KindOf(r.value.1) == KindOf(b)
    decreases a, 2
  {
    if a == b then None
    else if KindOf(a) != KindOf(b) then Some((a, b))
    else if a.JObject? then
      Some(DictDiff(a, b))
    else if a.JArray? then
      var p := ListDiff(a.elems, b.elems);
      Some((JArray(p.0), JArray(p.1)))
    else Some((a, b))
  }

  /** The loop of `list_diff` over `zip(a, b)`: the diffs of the positions where the two
      lists differ, in order, left parts on one side and right parts on the other. Positions
      past the shorter list are not visited. */
  function ZipDiff(xs: seq<Json>, ys: seq<Json>): (r: (seq<Json>, seq<Json>))
    ensures |r.0| == |r.1| <= |xs| && |r.1| <= |ys|
    ensures forall i :: 0 <= i < |r.0| ==> r.0[i] != r.1[i]
    ensures |r.0| == 0 <==> forall i :: 0 <= i < |xs| && i < |ys| ==> xs[i] == ys[i]
    decreases xs, 0
  {
    if |xs| == 0 || |ys| == 0 then ([], [])
    else
      var rest := ZipDiff(xs[1..], ys[1..]);
      match Diff(xs[0], ys[0])
      case None =>
        assert forall i :: 1 <= i < |xs| && i < |ys| ==> xs[i] == xs[1..][i - 1] && ys[i] == ys[1..][i - 1];
        rest
      case Some(d) => ([d.0] + rest.0, [d.1] + rest.1)
  }

  /** `list_diff(a, b)`: the zipped diffs, then the tail of the longer list on its own side.
      Each side is no longer than its input, the length difference of the inputs is carried
      entirely by the tail, and unequal lists give unequal sides. */
  function ListDiff(xs: seq<Json>, ys: seq<Json>): (r: (seq<Json>, seq<Json>))
    ensures |r.0| <= |xs| && |r.1| <= |ys|
    ensures |ZipDiff(xs, ys).0| <= |r.0| && r.0[..|ZipDiff(xs, ys).0|] == ZipDiff(xs, ys).0
    ensures |ZipDiff(xs, ys).1| <= |r.1| && r.1[..|ZipDiff(xs, ys).1|] == ZipDiff(xs, ys).1
    ensures |xs| <= |ys| ==> r.0 == ZipDiff(xs, ys).0
    ensures |ys| <= |xs| ==> r.1 == ZipDiff(xs, ys).1
    ensures |xs| <= |ys| ==> |r.1| == |r.0| + (|ys| - |xs|) && r.1[|r.0|..] == ys[|xs|..]
    ensures |ys| <= |xs| ==> |r.0| == |r.1| + (|xs| - |ys|) && r.0[|r.1|..] == xs[|ys|..]
    ensures xs != ys ==> r.0 != r.1
    decreases xs, 1
  {
    var p := ZipDiff(xs, ys);
    if |xs| != |ys| then
      if |xs| < |ys| then (p.0, p.1 + ys[|xs|..|ys|])
      else (p.0 + xs[|ys|..|xs|], p.1)
    else
      assert xs != ys ==> p.0[0] != p.1[0] by {
        if xs != ys {
          var i :| 0 <= i < |xs| && xs[i] != ys[i];
        }
      }
      p
  }

  /** `dict_diff(a, b)`: keys on one side only keep their value on that side; shared keys
      whose values differ hold the two sides of their diff; shared keys with equal values are
      dropped. A pair that is not two objects is returned whole. */
  function DictDiff(a: Json, b: Json): (r: Sides)
    ensures !(a.JObject? && b.JObject?) ==> r == (a, b)
    ensures a.JObject? && b.JObject? ==>
      && r.0.JObject? && r.1.JObject?
      && r.0.fields.Keys <= a.fields.Keys
      && r.1.fields.Keys <= b.fields.Keys
      && (forall k :: k in a.fields && k !in b.fields ==> k in r.0.fields && r.0.fields[k] == a.fields[k] && k !in r.1.fields)
      && (forall k :: k in b.fields && k !in a.fields ==> k in r.1.fields && r.1.fields[k] == b.fields[k] && k !in r.0.fields)
      && (forall k :: k in a.fields && k in b.fields && a.fields[k] == b.fields[k] ==> k !in r.0.fields && k !in r.1.fields)
      && (forall k :: k in a.fields && k in b.fields && a.fields[k] != b.fields[k] ==>
            k in r.0.fields && k in r.1.fields && Diff(a.fields[k], b.fields[k]) == Some((r.0.fields[k], r.1.fields[k])))
    ensures a.JObject? && b.JObject? && a != b ==> r.0 != r.1
    decreases a, 1
  {
    if !(a.JObject? && b.JObject?) then (a, b)
    else
      var fa, fb := a.fields, b.fields;
      var da := map k | k in fa && (k !in fb || Diff(fa[k], fb[k]).Some?) :: if k in fb then Diff(fa[k], fb[k]).value.0 else fa[k];
      var db := map k | k in fb && (k !in fa || Diff(fa[k], fb[k]).Some?) :: if k in fa then Diff(fa[k], fb[k]).value.1 else fb[k];
      assert fa != fb ==> da != db by {
        if fa != fb {
          var k := DifferingKey(fa, fb);
          if k in fa && k in fb {
            assert Diff(fa[k], fb[k]).Some?;
            assert da[k] != db[k];
          } else if k in fa {
            assert k in da && k !in db;
          } else {
            assert k in db && k !in da;
          }
        }
      }
      (JObject(da), JObject(db))
  }

  /** Two different maps disagree at some key: it is on one side only, or its values differ. */
  lemma DifferingKey(a: map<string, Json>, b: map<string, Json>) returns (k: string)
    requires a != b
    ensures (k in a && k !in b) || (k in b && k !in a) || (k in a && k in b && a[k] != b[k])
  {
    if x :| x in a && x !in b {
      k := x;
    } else if x :| x in b && x !in a {
      k := x;
    } else {
      assert a.Keys == b.Keys;
      k :| k in a && a[k] != b[k];
    }
  }
}
