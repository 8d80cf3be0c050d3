/**
 * The order in which `groupby` emits its keys: sorted, each key once, with
 * Python's `<` on `str` (lexicographic by code point, a proper prefix first).
 */
module KeyOrder {

  predicate StrLess(a: string, b: string)
    decreases |a|
  {
    if |a| == 0 then |b| > 0
    else if |b| == 0 then false
    else a[0] < b[0] || (a[0] == b[0] && StrLess(a[1..], b[1..]))
  }

  lemma {:induction false} StrLessIrreflexive(a: string)
    ensures !StrLess(a, a)
    decreases |a|
  {
    if |a| > 0 {
      StrLessIrreflexive(a[1..]);
    }
  }

  lemma {:induction false} StrLessTransitive(a: string, b: string, c: string)
    requires StrLess(a, b) && StrLess(b, c)
    ensures StrLess(a, c)
    decreases |a|
  {
    if |a| > 0 && a[0] == b[0] && b[0] == c[0] {
      StrLessTransitive(a[1..], b[1..], c[1..]);
    }
  }

  lemma {:induction false} StrLessTotal(a: string, b: string)
    ensures a == b || StrLess(a, b) || StrLess(b, a)
    decreases |a|
  {
    if |a| > 0 && |b| > 0 && a[0] == b[0] {
      StrLessTotal(a[1..], b[1..]);
      if a[1..] == b[1..] {
        assert a == [a[0]] + a[1..] && b == [b[0]] + b[1..];
      }
    }
  }

  predicate StrictlyAscending(keys: seq<string>)
  {
    forall i, j :: 0 <= i < j < |keys| ==> StrLess(keys[i], keys[j])
  }

  /** Insert `key` into sorted `keys`, unless it is there already. */
  function InsertKey(keys: seq<string>, key: string): (r: seq<string>)
    requires StrictlyAscending(keys)
    ensures StrictlyAscending(r)
    ensures forall x :: x in r <==> x in keys || x == key
  {
    if |keys| == 0 then [key]
    else if key == keys[0] then keys
    else if StrLess(key, keys[0]) then
      assert forall j :: 0 < j < |keys| ==> StrLess(key, keys[j]) by {
        forall j | 0 < j < |keys| ensures StrLess(key, keys[j]) {
          StrLessTransitive(key, keys[0], keys[j]);
        }
      }
      [key] + keys
    else
      StrLessTotal(key, keys[0]);
      var rest := InsertKey(keys[1..], key);
      assert forall x :: x in rest ==> StrLess(keys[0], x) by {
        forall x | x in rest ensures StrLess(keys[0], x) {
          if x != key {
            var j :| 0 <= j < |keys[1..]| && keys[1..][j] == x;
            assert keys[j + 1] == x;
          }
        }
      }
      [keys[0]] + rest
  }

  /** The distinct keys of `ids`, in ascending order. */
  function SortedKeys(ids: seq<string>): (r: seq<string>)
    ensures StrictlyAscending(r)
    ensures forall x :: x in r <==> x in ids
  {
    if |ids| == 0 then []
    else
      var init := ids[..|ids| - 1];
      assert ids == init + [ids[|ids| - 1]];
      InsertKey(SortedKeys(init), ids[|ids| - 1])
  }
}
