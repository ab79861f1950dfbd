/** Values as the record layer sees them: the scalars a Python dict or an
    SQLite column holds, insertion-ordered dictionaries, and the orderings
    SQLite applies when it compares or sorts them. */
module Common {

  datatype Option<+T> = None | Some(value: T)

  datatype Result<+T, +E> = Ok(value: T) | Err(error: E)

  /** A scalar field value: Python's None, a str or an int. */
  datatype Value = Null | Str(s: string) | Int(i: int)

  /** A Python dict with string keys: the keys in insertion order and the
      value held under each. */
  datatype Dict = Dict(keys: seq<string>, vals: map<string, Value>)

  predicate Distinct<T(==)>(s: seq<T>) {
    forall i, j :: 0 <= i < j < |s| ==> s[i] != s[j]
  }

  /** The representation invariant of a dict: each key listed once, and the
      listed keys are exactly the keys that hold a value. */
  predicate WfDict(d: Dict) {
    Distinct(d.keys) && (forall k :: k in d.vals ==> k in d.keys) && (forall k :: k in d.keys ==> k in d.vals)
  }

  /** The keys of `ks`, in order, that `m` does not hold yet. */
  function NewKeys(ks: seq<string>, m: map<string, Value>): (r: seq<string>)
    ensures forall k :: k in r <==> k in ks && k !in m
    ensures Distinct(ks) ==> Distinct(r)
  {
    if ks == [] then []
    else if ks[0] in m then NewKeys(ks[1..], m)
    else [ks[0]] + NewKeys(ks[1..], m)
  }

  /** `d.update(e)`, which is also `{**d, **e}`: keys already in `d` keep their
      place and take `e`'s value, keys new to `d` follow in `e`'s order. */
  function Update(d: Dict, e: Dict): (r: Dict)
    requires WfDict(d) && WfDict(e)
    ensures WfDict(r)
    ensures forall k :: k in r.vals <==> k in d.vals || k in e.vals
    ensures forall k :: k in e.vals ==> r.vals[k] == e.vals[k]
    ensures forall k :: k in d.vals && k !in e.vals ==> r.vals[k] == d.vals[k]
    ensures |d.keys| <= |r.keys| && r.keys[..|d.keys|] == d.keys
  {
    var added := NewKeys(e.keys, d.vals);
    DistinctAppend(d.keys, added);
    var r := Dict(d.keys + added, d.vals + e.vals);
    assert r.keys[..|d.keys|] == d.keys;
    assert forall k :: k in r.keys <==> k in d.keys || k in added;
    r
  }

  lemma DistinctAppend<T>(a: seq<T>, b: seq<T>)
    requires Distinct(a) && Distinct(b) && forall x :: x in a ==> x !in b
    ensures Distinct(a + b)
  {
    forall i, j | 0 <= i < j < |a + b| ensures (a + b)[i] != (a + b)[j] {
      if j < |a| {
        assert (a + b)[i] == a[i] && (a + b)[j] == a[j];
      } else if i >= |a| {
        assert (a + b)[i] == b[i - |a|] && (a + b)[j] == b[j - |a|];
      } else {
        assert (a + b)[i] == a[i] && (a + b)[j] == b[j - |a|];
        assert a[i] in a && b[j - |a|] in b;
      }
    }
  }

  /** `d[k] = v`. */
  function Set(d: Dict, k: string, v: Value): (r: Dict)
    requires WfDict(d)
    ensures WfDict(r)
  {
    Update(d, Dict([k], map[k := v]))
  }

  /** Binary order of strings: code point by code point, a proper prefix
      first. SQLite's default collation compares UTF-8 bytes, which orders
      strings exactly as their code points do. */
  predicate StrLe(a: string, b: string)
    decreases |a|
  {
    if a == [] then true
    else if b == [] then false
    else if a[0] != b[0] then a[0] < b[0]
    else StrLe(a[1..], b[1..])
  }

  lemma {:induction false} StrLeTotal(a: string, b: string)
    ensures StrLe(a, b) || StrLe(b, a)
    decreases |a|
  {
    if a != [] && b != [] && a[0] == b[0] {
      StrLeTotal(a[1..], b[1..]);
    }
  }

  lemma {:induction false} StrLeTransitive(a: string, b: string, c: string)
    requires StrLe(a, b) && StrLe(b, c)
    ensures StrLe(a, c)
    decreases |a|
  {
    if a != [] && b != [] && c != [] && a[0] == b[0] && b[0] == c[0] {
      StrLeTransitive(a[1..], b[1..], c[1..]);
    }
  }

  lemma {:induction false} StrLeAntisymmetric(a: string, b: string)
    requires StrLe(a, b) && StrLe(b, a)
    ensures a == b
    decreases |a|
  {
    if a != [] && b != [] {
      StrLeAntisymmetric(a[1..], b[1..]);
      assert a == [a[0]] + a[1..] && b == [b[0]] + b[1..];
    }
  }

  /** SQLite's storage-class rank: NULL sorts before numbers, numbers before text. */
  function Rank(v: Value): nat {
    match v
    case Null => 0
    case Int(_) => 1
    case Str(_) => 2
  }

  /** The order ORDER BY uses on one column. */
  predicate ValueLe(a: Value, b: Value) {
    if Rank(a) != Rank(b) then Rank(a) < Rank(b)
    else match a
      case Null => true
      case Int(i) => i <= b.i
      case Str(s) => StrLe(s, b.s)
  }

  lemma ValueLeTotal(a: Value, b: Value)
    ensures ValueLe(a, b) || ValueLe(b, a)
  {
    if a.Str? && b.Str? { StrLeTotal(a.s, b.s); }
  }

  lemma ValueLeTransitive(a: Value, b: Value, c: Value)
    requires ValueLe(a, b) && ValueLe(b, c)
    ensures ValueLe(a, c)
  {
    if a.Str? && b.Str? && c.Str? { StrLeTransitive(a.s, b.s, c.s); }
  }

  /** A comparison in SQL: false as soon as either side is NULL. */
  predicate SqlLe(a: Value, b: Value) {
    a != Null && b != Null && ValueLe(a, b)
  }

  /** `needle` occurs contiguously in `hay`. */
  predicate IsSubstring(needle: string, hay: string) {
    exists i :: 0 <= i <= |hay| - |needle| && OccursAt(needle, hay, i)
  }

  predicate OccursAt(needle: string, hay: string, i: int) {
    0 <= i <= |hay| - |needle| && hay[i..i + |needle|] == needle
  }

  /** Strings written one after another. */
  function Concat(ss: seq<string>): string {
    if ss == [] then "" else Concat(ss[..|ss| - 1]) + ss[|ss| - 1]
  }

  /** What the first `j` pieces spell is a prefix of the whole. */
  lemma {:induction false} ConcatPrefixOf(ss: seq<string>, j: nat)
    requires j <= |ss|
    ensures |Concat(ss[..j])| <= |Concat(ss)| && Concat(ss)[..|Concat(ss[..j])|] == Concat(ss[..j])
    decreases |ss| - j
  {
    if j == |ss| {
      assert ss[..j] == ss;
    } else {
      var init := ss[..|ss| - 1];
      ConcatPrefixOf(init, j);
      assert init[..j] == ss[..j];
    }
  }

  /** Piece `k` sits right after the pieces before it. */
  lemma ConcatAt(ss: seq<string>, k: nat)
    requires k < |ss|
    ensures var o := |Concat(ss[..k])|;
      && o + |ss[k]| <= |Concat(ss)|
      && Concat(ss)[o..o + |ss[k]|] == ss[k]
      && |Concat(ss[..k + 1])| == o + |ss[k]|
  {
    var o := |Concat(ss[..k])|;
    assert ss[..k + 1][..k] == ss[..k];
    assert Concat(ss[..k + 1]) == Concat(ss[..k]) + ss[k];
    ConcatPrefixOf(ss, k + 1);
    assert Concat(ss)[o..o + |ss[k]|] == Concat(ss[..k + 1])[o..o + |ss[k]|];
  }

  /** A slice of `body` is the same slice, shifted, of `h + body`. */
  lemma SliceShift(h: string, body: string, o: nat, n: nat)
    requires o + n <= |body|
    ensures (h + body)[|h| + o..|h| + o + n] == body[o..o + n]
  {
  }

  /** The first `m` characters of a slice are a shorter slice. */
  lemma PrefixOfSlice(s: string, o: nat, n: nat, m: nat)
    requires o + n <= |s| && m <= n
    ensures s[o..o + m] == s[o..o + n][..m]
  {
  }

  /** After a header `h`, piece `k` sits right after the pieces before it. */
  lemma ConcatAtAfter(h: string, ss: seq<string>, k: nat)
    requires k < |ss|
    ensures var o, text := |h| + |Concat(ss[..k])|, h + Concat(ss);
      && o + |ss[k]| <= |text|
      && text[o..o + |ss[k]|] == ss[k]
  {
    ConcatAt(ss, k);
    SliceShift(h, Concat(ss), |Concat(ss[..k])|, |ss[k]|);
  }
}
