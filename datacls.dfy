/** `utilities/types/datacls.py`: turning a dataclass into a dictionary.
    `dataclasses.asdict` hands the dictionary factory the list of `(field name, value)`
    pairs in declaration order; `custom_dict_factory(ignore_none)` keeps a pair when
    `ignore_none` is off or its value is not `None`, replaces an Enum member by its
    `.value`, and builds a `dict` from the kept pairs; `AsDictMixin.asdict` then drops
    the keys listed in `ignore_attrs`. */
module DataclassDict {

  /** A field value, as far as the factory distinguishes values: `None`, an Enum
      member (whose `.value` is again a value), or anything else. */
  datatype Value =
    | NoneValue
    | Member(name: string, value: Value)
    | Other(repr: string)

  /** `convert(obj)`: an Enum member becomes its value; every other value is unchanged. */
  function Convert(v: Value): (r: Value)
    ensures v.Member? ==> r == v.value
    ensures !v.Member? ==> r == v
  {
    match v
    case Member(_, value) => value
    case _ => v
  }

  /** The filter `not ignore_none or v is not None`, applied to the unconverted value. */
  predicate Kept(ignoreNone: bool, v: Value): (b: bool)
    ensures !ignoreNone ==> b
    ensures ignoreNone ==> (b <==> !v.NoneValue?)
  {
    !ignoreNone || v != NoneValue
  }

  /** Pair `i` of `data` has key `k` and survives the `None` filter. */
  predicate KeptAt(ignoreNone: bool, data: seq<(string, Value)>, k: string, i: int) {
    0 <= i < |data| && data[i].0 == k && Kept(ignoreNone, data[i].1)
  }

  /** Pair `i` is the last pair with key `k` that survives the filter. */
  ghost predicate LastKeptAt(ignoreNone: bool, data: seq<(string, Value)>, k: string, i: int) {
    KeptAt(ignoreNone, data, k, i) && forall j :: i < j < |data| ==> !KeptAt(ignoreNone, data, k, j)
  }

  /** `m` is the dictionary `dict` builds from the kept, converted pairs of `data`:
      a key is present exactly when some pair with that key is kept, and it maps to
      the converted value of the last such pair. */
  ghost predicate Describes(ignoreNone: bool, data: seq<(string, Value)>, m: map<string, Value>) {
    && (forall k :: k in m <==> exists i :: KeptAt(ignoreNone, data, k, i))
    && (forall k :: k in m ==> exists i :: LastKeptAt(ignoreNone, data, k, i) && m[k] == Convert(data[i].1))
  }

  /** `custom_dict_factory(ignore_none)(data)`: `dict` of the kept, converted pairs,
      taken left to right, so that a later pair with the same key overwrites an
      earlier one. */
  function DictFactory(ignoreNone: bool, data: seq<(string, Value)>): (m: map<string, Value>)
    ensures Describes(ignoreNone, data, m)
    decreases |data|
  {
    if data == [] then map[]
    else
      var n := |data| - 1;
      var m := DictFactory(ignoreNone, data[..n]);
      var (k, v) := data[n];
      var r := if Kept(ignoreNone, v) then m[k := Convert(v)] else m;
      StepKeys(ignoreNone, data, m, r);
      StepValues(ignoreNone, data, m, r);
      r
  }

  /** Adding one more pair keeps the key set right. */
  lemma StepKeys(ignoreNone: bool, data: seq<(string, Value)>, m: map<string, Value>, r: map<string, Value>)
    requires |data| >= 1 && Describes(ignoreNone, data[..|data| - 1], m)
    requires r == if Kept(ignoreNone, data[|data| - 1].1) then m[data[|data| - 1].0 := Convert(data[|data| - 1].1)] else m
    ensures forall key :: key in r <==> exists i :: KeptAt(ignoreNone, data, key, i)
  {
    var n := |data| - 1;
    var front := data[..n];
    forall key
      ensures key in r <==> exists i :: KeptAt(ignoreNone, data, key, i)
    {
      if exists i :: KeptAt(ignoreNone, data, key, i) {
        var i :| KeptAt(ignoreNone, data, key, i);
        if i < n {
          assert KeptAt(ignoreNone, front, key, i);
        }
      }
      if key in m {
        var i :| KeptAt(ignoreNone, front, key, i);
        assert KeptAt(ignoreNone, data, key, i);
      }
      if key == data[n].0 && Kept(ignoreNone, data[n].1) {
        assert KeptAt(ignoreNone, data, key, n);
      }
    }
  }

  /** Adding one more pair keeps every value that of the last kept pair. */
  lemma StepValues(ignoreNone: bool, data: seq<(string, Value)>, m: map<string, Value>, r: map<string, Value>)
    requires |data| >= 1 && Describes(ignoreNone, data[..|data| - 1], m)
    requires r == if Kept(ignoreNone, data[|data| - 1].1) then m[data[|data| - 1].0 := Convert(data[|data| - 1].1)] else m
    ensures forall key :: key in r ==> exists i :: LastKeptAt(ignoreNone, data, key, i) && r[key] == Convert(data[i].1)
  {
    var n := |data| - 1;
    forall key | key in r
      ensures exists i :: LastKeptAt(ignoreNone, data, key, i) && r[key] == Convert(data[i].1)
    {
      if key == data[n].0 && Kept(ignoreNone, data[n].1) {
        assert LastKeptAt(ignoreNone, data, key, n);
      } else {
        assert key in m && r[key] == m[key];
        var i :| LastKeptAt(ignoreNone, data[..n], key, i) && m[key] == Convert(data[..n][i].1);
        LastKeptExtends(ignoreNone, data, key, i);
      }
    }
  }

  /** The last kept pair for `key` in all but the final pair stays the last one when
      the final pair is not a kept pair for `key`. */
  lemma LastKeptExtends(ignoreNone: bool, data: seq<(string, Value)>, key: string, i: int)
    requires |data| >= 1 && LastKeptAt(ignoreNone, data[..|data| - 1], key, i)
    requires !KeptAt(ignoreNone, data, key, |data| - 1)
    ensures LastKeptAt(ignoreNone, data, key, i) && data[..|data| - 1][i] == data[i]
  {
    var n := |data| - 1;
    var front := data[..n];
    forall j | i < j < |data|
      ensures !KeptAt(ignoreNone, data, key, j)
    {
      if j < n {
        assert front[j] == data[j];
        assert !KeptAt(ignoreNone, front, key, j);
      }
    }
  }

  /** Field names of a dataclass are pairwise distinct. */
  predicate DistinctNames(data: seq<(string, Value)>) {
    forall i, j :: 0 <= i < j < |data| ==> data[i].0 != data[j].0
  }

  /** For a dataclass (distinct field names) each field is present exactly when it is
      kept, and then under the converted value of that very field. */
  lemma FieldsOfDataclass(ignoreNone: bool, data: seq<(string, Value)>, i: nat)
    requires DistinctNames(data) && i < |data|
    ensures var m := DictFactory(ignoreNone, data);
            && (data[i].0 in m <==> Kept(ignoreNone, data[i].1))
            && (data[i].0 in m ==> m[data[i].0] == Convert(data[i].1))
  {
    var m := DictFactory(ignoreNone, data);
    var k := data[i].0;
    if k in m {
      var i' :| LastKeptAt(ignoreNone, data, k, i') && m[k] == Convert(data[i'].1);
      assert i' == i;
    } else {
      assert !KeptAt(ignoreNone, data, k, i);
    }
  }

  /** With `ignore_none` off nothing is dropped: the keys are all the field names. */
  lemma KeepsEveryFieldWhenNotIgnoringNone(data: seq<(string, Value)>)
    ensures DictFactory(false, data).Keys == set i | 0 <= i < |data| :: data[i].0
  {
    var m := DictFactory(false, data);
    var names := set i | 0 <= i < |data| :: data[i].0;
    forall k | k in m ensures k in names {
      var i :| KeptAt(false, data, k, i);
    }
    forall k | k in names ensures k in m {
      var i :| 0 <= i < |data| && data[i].0 == k;
      assert KeptAt(false, data, k, i);
    }
    assert m.Keys == names;
  }

  /** `None` is tested before the conversion: an Enum member whose value is `None`
      survives `ignore_none` and is stored as `None`. */
  lemma NoneTestedBeforeConversion(field: string, enumName: string)
    ensures DictFactory(true, [(field, Member(enumName, NoneValue))]) == map[field := NoneValue]
  {
    assert [(field, Member(enumName, NoneValue))][..0] == [];
  }

  /** `AsDictMixin.asdict(ignore_attrs, ignore_none)`: the factory's dictionary without
      the keys listed in `ignoreAttrs`; every other entry is kept unchanged. */
  function AsDict(fields: seq<(string, Value)>, ignoreAttrs: seq<string>, ignoreNone: bool): (r: map<string, Value>)
    ensures var data := DictFactory(ignoreNone, fields);
            && (forall k :: k in r <==> k in data && k !in ignoreAttrs)
            && (forall k :: k in r ==> r[k] == data[k])
  {
    var data := DictFactory(ignoreNone, fields);
    map k | k in data && k !in ignoreAttrs :: data[k]
  }

  /** For a dataclass: a field appears in `asdict(...)` exactly when it is neither
      ignored nor dropped as `None`, and then with its converted value. */
  lemma AsDictOfDataclass(fields: seq<(string, Value)>, ignoreAttrs: seq<string>, ignoreNone: bool, i: nat)
    requires DistinctNames(fields) && i < |fields|
    ensures var r := AsDict(fields, ignoreAttrs, ignoreNone);
            && (fields[i].0 in r <==> fields[i].0 !in ignoreAttrs && Kept(ignoreNone, fields[i].1))
            && (fields[i].0 in r ==> r[fields[i].0] == Convert(fields[i].1))
  {
    FieldsOfDataclass(ignoreNone, fields, i);
  }
}
