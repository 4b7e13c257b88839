/** Key-value entries sorted by key, in UTF-16 code unit order. */
module Entries {
  import opened Utf16
  import Json
  import Sorting

  datatype Entry<+V> = Entry(key: Text, value: V)

  predicate KeyAtMost<V>(a: Entry<V>, b: Entry<V>) { AtMost(a.key, b.key) }

  ghost predicate Distinct(keys: seq<Text>) {
    forall i, j :: 0 <= i < j < |keys| ==> keys[i] != keys[j]
  }

  function KeysOf<V>(entries: seq<Entry<V>>): seq<Text> {
    seq(|entries|, i requires 0 <= i < |entries| => entries[i].key)
  }

  function SortByKey<V>(entries: seq<Entry<V>>): seq<Entry<V>> {
    Sorting.Sort((a: Entry<V>, b: Entry<V>) => KeyAtMost(a, b), entries)
  }

  lemma {:induction false} AtMostOnce<V>(d: seq<Entry<V>>, e: Entry<V>)
    requires forall a, b :: 0 <= a < b < |d| ==> d[a].key != d[b].key
    ensures multiset(d)[e] <= 1
  {
    if d != [] {
      AtMostOnce(d[1..], e);
      assert d == [d[0]] + d[1..];
      if d[0] == e { assert e !in d[1..]; }
    }
  }

  lemma TwiceIn<V>(s: seq<Entry<V>>, i: int, j: int)
    requires 0 <= i < j < |s| && s[i] == s[j]
    ensures multiset(s)[s[i]] >= 2
  {
    assert s == s[..j] + s[j..];
    assert s[i] in s[..j] && s[i] in s[j..];
  }

  /** Rearranging entries with distinct keys repeats no key. */
  lemma KeysNotRepeated<V>(d: seq<Entry<V>>, s: seq<Entry<V>>, i: int, j: int)
    requires multiset(d) == multiset(s) && 0 <= i < j < |s|
    requires forall a, b :: 0 <= a < b < |d| ==> d[a].key != d[b].key
    ensures s[i].key != s[j].key
  {
    Sorting.SameElements(d, s);
    assert s[i] in s && s[j] in s;
    if s[i] == s[j] {
      AtMostOnce(d, s[i]);
      TwiceIn(s, i, j);
    }
  }

  /** Sorting entries with distinct keys lists the same entries by strictly increasing key. */
  lemma SortByKeyLists<V(!new)>(d: seq<Entry<V>>)
    requires forall a, b :: 0 <= a < b < |d| ==> d[a].key != d[b].key
    ensures Json.StrictlySorted(KeysOf(SortByKey(d)))
    ensures forall e :: e in SortByKey(d) <==> e in d
  {
    var le := (a: Entry<V>, b: Entry<V>) => KeyAtMost(a, b);
    var s := SortByKey(d);
    AtMostIsTotalOrder();
    Sorting.SortPermutes(le, d);
    Sorting.SortSorts(le, d);
    Sorting.SameElements(s, d);
    forall i, j | 0 <= i < j < |s| ensures Less(s[i].key, s[j].key) {
      assert le(s[i], s[j]);
      KeysNotRepeated(d, s, i, j);
    }
  }
}
