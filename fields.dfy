/** Header fields as the Python code keeps them: a `dict` (or
    `defaultdict(str)`) from field name to value. Names are compared exactly
    (case-sensitively) and the dict remembers insertion order, which is the
    order in which `__bytes__` writes the fields out. */
module Fields {
  import opened Base

  type Field = (string, string)

  predicate UniqueNames(f: seq<Field>) {
    forall i, j :: 0 <= i < j < |f| ==> f[i].0 != f[j].0
  }

  /** A Python dict from name to value: each name at most once, in insertion order. */
  type Dict = f: seq<Field> | UniqueNames(f) witness []

  /** The position of `name`, or -1 when the dict does not hold it. */
  function IndexOf(f: seq<Field>, name: string): (i: int)
    ensures -1 <= i < |f|
    ensures i >= 0 ==> f[i].0 == name
    ensures forall k :: 0 <= k < |f| && (i < 0 || k < i) ==> f[k].0 != name
  {
    if f == [] then -1
    else if f[0].0 == name then 0
    else
      var j := IndexOf(f[1..], name);
      if j < 0 then -1 else j + 1
  }

  /** A name at `i` and at no earlier position is found at `i`. */
  lemma IndexOfFirst(f: seq<Field>, i: nat, name: string)
    requires i < |f| && f[i].0 == name
    requires forall k :: 0 <= k < i ==> f[k].0 != name
    ensures IndexOf(f, name) == i
  {
  }

  predicate Has(d: Dict, name: string) {
    IndexOf(d, name) >= 0
  }

  /** `d.get(name)`. */
  function Get(d: Dict, name: string): Option<string> {
    var i := IndexOf(d, name);
    if i < 0 then None else Some(d[i].1)
  }

  /** `d[name]` on a `defaultdict(str)`: the value, or "" when absent. */
  function GetOrEmpty(d: Dict, name: string): (v: string)
    ensures Has(d, name) ==> Some(v) == Get(d, name)
    ensures !Has(d, name) ==> v == ""
  {
    var i := IndexOf(d, name);
    if i < 0 then "" else d[i].1
  }

  predicate SameNames(a: seq<Field>, b: seq<Field>) {
    |a| == |b| && forall k :: 0 <= k < |a| ==> a[k].0 == b[k].0
  }

  lemma IndexOfSameNames(a: seq<Field>, b: seq<Field>, name: string)
    requires SameNames(a, b)
    ensures IndexOf(a, name) == IndexOf(b, name)
  {
    var i, j := IndexOf(a, name), IndexOf(b, name);
    if i >= 0 { assert b[i].0 == name; }
    if j >= 0 { assert a[j].0 == name; }
  }

  lemma IndexOfAppend(d: seq<Field>, e: Field, name: string)
    requires name != e.0
    ensures IndexOf(d + [e], name) == IndexOf(d, name)
  {
    var i, j := IndexOf(d + [e], name), IndexOf(d, name);
    if i >= 0 { assert (d + [e])[i] == d[i]; }
    if j >= 0 { assert (d + [e])[j] == d[j]; }
  }

  /** `d[name] = value`: the value is replaced in place when the name is
      present, and the field is appended otherwise. */
  function Set(d: Dict, name: string, value: string): (r: Dict)
    ensures Get(r, name) == Some(value)
    ensures forall n :: n != name ==> Get(r, n) == Get(d, n)
    ensures Has(d, name) ==> SameNames(r, d)
    ensures !Has(d, name) ==> r == d + [(name, value)]
  {
    var i := IndexOf(d, name);
    if i >= 0 then
      var r := d[i := (name, value)];
      assert SameNames(r, d);
      IndexOfSameNames(r, d, name);
      forall n | n != name
        ensures Get(r, n) == Get(d, n)
      {
        IndexOfSameNames(r, d, n);
      }
      r
    else
      var r := d + [(name, value)];
      assert IndexOf(r, name) == |d| by {
        assert r[|d|].0 == name;
      }
      forall n | n != name
        ensures Get(r, n) == Get(d, n)
      {
        IndexOfAppend(d, (name, value), n);
      }
      r
  }

  /** `if name in d: del d[name]`: the field is removed and the others keep
      their order. */
  function Delete(d: Dict, name: string): (r: Dict)
    ensures Get(r, name) == None
    ensures forall n :: n != name ==> Get(r, n) == Get(d, n)
    ensures !Has(d, name) ==> r == d
    ensures Has(d, name) ==> r == Without(d, IndexOf(d, name))
  {
    var i := IndexOf(d, name);
    if i < 0 then d
    else
      RemoveAt(d, name, i);
      Without(d, i)
  }

  /** The fields but the one at `i`, in their order. */
  function Without(d: seq<Field>, i: nat): seq<Field>
    requires i < |d|
  {
    d[..i] + d[i + 1..]
  }

  /** Removing the field found at `i` keeps the names unique, and only that
      field's name stops being found. */
  lemma RemoveAt(d: Dict, name: string, i: int)
    requires i == IndexOf(d, name) && i >= 0
    ensures var r := Without(d, i);
      && UniqueNames(r)
      && Get(r, name) == None
      && forall n :: n != name ==> Get(r, n) == Get(d, n)
  {
    var r := Without(d, i);
    WithoutAt(d, i);
    IndexOfWithout(d, i, name);
    forall n | n != name
      ensures Get(r, n) == Get(d, n)
    {
      IndexOfWithout(d, i, n);
      var j := IndexOf(d, n);
      if j > i {
        assert r[j - 1] == d[j];
      } else if j >= 0 {
        assert r[j] == d[j];
      }
    }
  }

  lemma WithoutAt(d: Dict, i: nat)
    requires i < |d|
    ensures var r := Without(d, i);
      && |r| == |d| - 1
      && (forall k :: 0 <= k < |r| ==> r[k] == if k < i then d[k] else d[k + 1])
      && UniqueNames(r)
  {
  }

  /** Where a name is found once the field at `i` is gone. */
  lemma IndexOfWithout(d: Dict, i: nat, n: string)
    requires i < |d|
    ensures var j := IndexOf(d, n);
      IndexOf(Without(d, i), n) == if j == i then -1 else if j > i then j - 1 else j
  {
    var r := Without(d, i);
    WithoutAt(d, i);
    var j, q := IndexOf(d, n), IndexOf(r, n);
    if q >= 0 {
      assert r[q].0 == n;
      var p := if q < i then q else q + 1;
      assert d[p].0 == n;
    }
    if j >= 0 && j != i {
      var j' := if j > i then j - 1 else j;
      assert r[j'] == d[j];
      forall k | 0 <= k < j'
        ensures r[k].0 != n
      {
        var p := if k < i then k else k + 1;
        assert r[k] == d[p] && p < j;
      }
      IndexOfFirst(r, j', n);
    }
  }
}
