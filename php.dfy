/** The parts of PHP's runtime semantics that the bot relies on: `empty()`,
    `explode()`, `str_replace()` on one character, `substr()` with a negative
    start, and ordered arrays with string keys (assignment, `unset`, lookup).
    Exceptions and fatal errors are results (`Outcome`) rather than control flow. */
module Php {

  datatype Option<+T> = None | Some(value: T)

  /** How a PHP call ends: it returns a value, it throws an `Exception` with a
      message, or it dies with a fatal error (for instance a method call on null). */
  datatype Outcome<+T> = Returned(value: T) | Threw(message: string) | Crashed(message: string)

  /** The same exception or fatal error, as the outcome of a caller that does not catch it. */
  function Propagate<T, U>(o: Outcome<T>): (r: Outcome<U>)
    requires !o.Returned?
    ensures !r.Returned? && r.Threw? == o.Threw? && r.message == o.message
  {
    if o.Threw? then Threw(o.message) else Crashed(o.message)
  }

  function Lookup<K, V>(m: map<K, V>, k: K): (r: Option<V>)
    ensures r.Some? <==> k in m
    ensures r.Some? ==> r.value == m[k]
  {
    if k in m then Some(m[k]) else None
  }

  /** `empty($s)` for a string that may be null (or `false`): null, "" and "0" are empty. */
  predicate Empty(s: Option<string>)
  {
    s == None || s == Some("") || s == Some("0")
  }

  /** `str_replace($from, $to, $s)` for single characters. */
  function Replace(s: string, from: char, to: char): (r: string)
    ensures |r| == |s|
    ensures forall i :: 0 <= i < |s| ==> r[i] == (if s[i] == from then to else s[i])
  {
    if s == [] then [] else [if s[0] == from then to else s[0]] + Replace(s[1..], from, to)
  }

  lemma {:induction false} ReplaceRemoves(s: string, from: char, to: char)
    requires from != to
    ensures from !in Replace(s, from, to)
    ensures Replace(Replace(s, from, to), from, to) == Replace(s, from, to)
  {
    var r := Replace(s, from, to);
    forall i | 0 <= i < |r| ensures r[i] != from { }
    var rr := Replace(r, from, to);
    assert |rr| == |r|;
    forall i | 0 <= i < |r| ensures rr[i] == r[i] { }
  }

  /** Replacing a character that does not occur changes nothing. */
  lemma ReplaceAbsent(s: string, from: char, to: char)
    requires from !in s
    ensures Replace(s, from, to) == s
  {
    var r := Replace(s, from, to);
    assert forall i :: 0 <= i < |s| ==> r[i] == s[i];
  }

  /** `substr($s, -4, 4)`: the last four elements, or the whole string when it
      is shorter. PHP counts bytes; strings here are sequences of characters.
      For the only use, a comparison with the ASCII "/doc", the two readings
      agree on UTF-8 titles, since no multi-byte character ends in an ASCII byte. */
  function LastFour(s: string): (r: string)
    ensures |r| == if |s| < 4 then |s| else 4
    ensures s == s[..|s| - |r|] + r
  {
    if |s| < 4 then s else s[|s| - 4..]
  }

  /** Index of the first occurrence of `c` in `s`. */
  function IndexOf(s: string, c: char): (r: Option<nat>)
    ensures r.None? <==> c !in s
    ensures r.Some? ==> r.value < |s| && s[r.value] == c && c !in s[..r.value]
  {
    if s == [] then None
    else if s[0] == c then Some(0)
    else match IndexOf(s[1..], c)
      case None => None
      case Some(i) =>
        assert s[..i + 1] == [s[0]] + s[1..][..i];
        Some(i + 1)
  }

  /** `implode($sep, $parts)`. */
  function Implode(sep: char, parts: seq<string>): string
    requires |parts| >= 1
  {
    if |parts| == 1 then parts[0] else parts[0] + [sep] + Implode(sep, parts[1..])
  }

  /** `explode($sep, $s, $limit)` for a one-character separator and a limit that
      is not negative: at most `limit` pieces (a limit of 0 counts as 1), the
      last one holding the rest of the string, separators included. */
  function Explode(sep: char, s: string, limit: nat): (r: seq<string>)
    ensures 1 <= |r| <= if limit == 0 then 1 else limit
    ensures Implode(sep, r) == s
    ensures forall i :: 0 <= i < |r| - 1 ==> sep !in r[i]
    ensures |r| < limit ==> sep !in r[|r| - 1]
    decreases limit
  {
    if limit <= 1 then [s]
    else match IndexOf(s, sep)
      case None => [s]
      case Some(i) =>
        var rest := Explode(sep, s[i + 1..], limit - 1);
        ExplodeCons(sep, s, i, rest, limit);
        [s[..i]] + rest
  }

  /** The pieces after the first separator, preceded by the part before it,
      are the pieces of the whole string. */
  lemma ExplodeCons(sep: char, s: string, i: nat, rest: seq<string>, limit: nat)
    requires i < |s| && s[i] == sep && sep !in s[..i] && limit >= 2
    requires 1 <= |rest| <= limit - 1
    requires Implode(sep, rest) == s[i + 1..]
    requires forall j :: 0 <= j < |rest| - 1 ==> sep !in rest[j]
    requires |rest| < limit - 1 ==> sep !in rest[|rest| - 1]
    ensures var r := [s[..i]] + rest;
      && 1 <= |r| <= limit
      && Implode(sep, r) == s
      && (forall j :: 0 <= j < |r| - 1 ==> sep !in r[j])
      && (|r| < limit ==> sep !in r[|r| - 1])
  {
    var r := [s[..i]] + rest;
    assert s == s[..i] + [sep] + s[i + 1..];
    ImplodeCons(sep, s[..i], rest);
    forall j | 0 < j < |r| ensures r[j] == rest[j - 1] { }
  }

  /** `implode` of a head and at least one more piece. */
  lemma ImplodeCons(sep: char, head: string, rest: seq<string>)
    requires |rest| >= 1
    ensures Implode(sep, [head] + rest) == head + [sep] + Implode(sep, rest)
  {
    assert ([head] + rest)[1..] == rest;
  }

  /** Pieces without the separator, joined by `implode`, are split back by
      `explode` with a limit of their number. */
  lemma {:induction false} ExplodeImplode(sep: char, parts: seq<string>)
    requires |parts| >= 1
    requires forall i :: 0 <= i < |parts| ==> sep !in parts[i]
    ensures Explode(sep, Implode(sep, parts), |parts|) == parts
  {
    if |parts| > 1 {
      var head := parts[0];
      var tail := Implode(sep, parts[1..]);
      assert Implode(sep, parts) == head + [sep] + tail;
      ExplodeJoined(sep, head, tail, |parts|);
      ExplodeImplode(sep, parts[1..]);
      assert [head] + parts[1..] == parts;
    }
  }

  /** A separator-free head joined to a tail: `explode` cuts the head off and
      goes on with the tail. */
  lemma ExplodeJoined(sep: char, head: string, tail: string, limit: nat)
    requires sep !in head && limit >= 2
    ensures Explode(sep, head + [sep] + tail, limit) == [head] + Explode(sep, tail, limit - 1)
  {
    var s := head + [sep] + tail;
    IndexOfJoined(sep, head, tail);
    assert s[..|head|] == head;
    assert s[|head| + 1..] == tail;
  }

  /** The first separator in a joined string is the one after the head. */
  lemma IndexOfJoined(sep: char, head: string, tail: string)
    requires sep !in head
    ensures IndexOf(head + [sep] + tail, sep) == Some(|head|)
  {
    var s := head + [sep] + tail;
    assert s[|head|] == sep;
    assert s[..|head|] == head;
    assert forall j :: 0 <= j < |head| ==> s[j] == head[j];
  }

  /** Joining a separator-free head to any tail is split back at that separator. */
  lemma {:induction false} ExplodeTwoJoined(sep: char, head: string, tail: string)
    requires sep !in head
    ensures Explode(sep, head + [sep] + tail, 2) == [head, tail]
  {
    ExplodeJoined(sep, head, tail, 2);
  }


  // PHP arrays with string keys, in insertion order

  type Assoc<V> = seq<(string, V)>

  ghost predicate DistinctKeys<V>(a: Assoc<V>)
  {
    forall i, j :: 0 <= i < j < |a| ==> a[i].0 != a[j].0
  }

  function Keys<V>(a: Assoc<V>): (r: seq<string>)
    ensures |r| == |a| && forall i :: 0 <= i < |a| ==> r[i] == a[i].0
  {
    seq(|a|, i requires 0 <= i < |a| => a[i].0)
  }

  /** `$a[$k]` (or null when the key is absent). */
  function Get<V(==)>(a: Assoc<V>, k: string): (r: Option<V>)
    ensures r.None? <==> k !in Keys(a)
    ensures r.Some? ==> exists i :: 0 <= i < |a| && a[i] == (k, r.value)
  {
    if a == [] then None
    else if a[0].0 == k then Some(a[0].1)
    else
      var r := Get(a[1..], k);
      assert Keys(a) == [a[0].0] + Keys(a[1..]);
      if r.Some? then
        var i :| 0 <= i < |a[1..]| && a[1..][i] == (k, r.value);
        assert a[i + 1] == (k, r.value);
        r
      else r
  }

  lemma GetAt<V>(a: Assoc<V>, i: nat)
    requires DistinctKeys(a) && i < |a|
    ensures Get(a, a[i].0) == Some(a[i].1)
  {
    if i > 0 {
      assert a[1..][i - 1] == a[i];
      GetAt(a[1..], i - 1);
    }
  }

  /** `$a[$k] = $v`: overwrites in place when the key is present, appends otherwise. */
  function Put<V>(a: Assoc<V>, k: string, v: V): (r: Assoc<V>)
    ensures k !in Keys(a) ==> r == a + [(k, v)]
    ensures |r| == |a| || |r| == |a| + 1
  {
    if a == [] then [(k, v)]
    else if a[0].0 == k then [(k, v)] + a[1..]
    else
      assert Keys(a) == [a[0].0] + Keys(a[1..]);
      [a[0]] + Put(a[1..], k, v)
  }

  /** `unset($a[$k])`: drops the entry with that key and keeps the order of the rest. */
  function Remove<V(==,!new)>(a: Assoc<V>, k: string): (r: Assoc<V>)
    ensures forall e :: e in r <==> e in a && e.0 != k
    ensures |r| <= |a|
  {
    if a == [] then []
    else if a[0].0 == k then Remove(a[1..], k)
    else [a[0]] + Remove(a[1..], k)
  }

  /** `unset` keeps the order of what it leaves: removing from a concatenation
      removes from each part. */
  lemma {:induction false} RemoveAppend<V(!new)>(a: Assoc<V>, b: Assoc<V>, k: string)
    ensures Remove(a + b, k) == Remove(a, k) + Remove(b, k)
  {
    if a != [] {
      assert (a + b)[0] == a[0];
      assert (a + b)[1..] == a[1..] + b;
      RemoveAppend(a[1..], b, k);
    } else {
      assert a + b == b;
    }
  }

  /** Removing from a list extended by one entry: the entry stays after the
      others exactly when its key is not the removed one. */
  lemma RemoveSnoc<V(!new)>(a: Assoc<V>, e: (string, V), k: string)
    ensures Remove(a + [e], k) == Remove(a, k) + (if e.0 == k then [] else [e])
  {
    RemoveAppend(a, [e], k);
    assert [e][1..] == [];
  }
}
