/**
 * The classification step shared by the face and OCR checkers: every entity
 * is paired with a visibility flag (`status`), and the result is two
 * order-preserving filters of that list, one per flag value.
 */
module Buckets {

  /** An entity together with its visibility verdict. */
  datatype Status<T> = Status(item: T, isVisible: bool)

  /** The two buckets a checker returns. */
  datatype Split<T> = Split(visible: seq<T>, hidden: seq<T>)

  /** The entities of a status list, in order. */
  function Items<T>(s: seq<Status<T>>): (r: seq<T>)
    ensures |r| == |s|
    ensures forall i :: 0 <= i < |s| ==> r[i] == s[i].item
  {
    seq(|s|, i requires 0 <= i < |s| => s[i].item)
  }

  /** The items of the entries whose flag is `flag`, in their original order. */
  function Select<T>(s: seq<Status<T>>, flag: bool): (r: seq<T>)
    ensures |r| <= |s|
    ensures forall x :: x in r ==> exists i :: 0 <= i < |s| && s[i].item == x && s[i].isVisible == flag
  {
    if s == [] then []
    else if s[0].isVisible == flag then [s[0].item] + Select(s[1..], flag)
    else Select(s[1..], flag)
  }

  /** Both buckets of a status list. */
  function Partition<T>(s: seq<Status<T>>): (r: Split<T>)
    ensures |r.visible| + |r.hidden| == |s|
    ensures multiset(r.visible) + multiset(r.hidden) == multiset(Items(s))
  {
    SelectPartition(s);
    Split(Select(s, true), Select(s, false))
  }

  /** Filtering distributes over concatenation, so it keeps the input order. */
  lemma {:induction false} SelectAppend<T>(s: seq<Status<T>>, t: seq<Status<T>>, flag: bool)
    ensures Select(s + t, flag) == Select(s, flag) + Select(t, flag)
  {
    if s != [] {
      assert (s + t)[1..] == s[1..] + t;
      SelectAppend(s[1..], t, flag);
    } else {
      assert s + t == t;
    }
  }

  /** Every entry lands in the bucket of its own flag. */
  lemma {:induction false} SelectMember<T>(s: seq<Status<T>>, i: nat)
    requires i < |s|
    ensures s[i].item in Select(s, s[i].isVisible)
  {
    if i > 0 {
      SelectMember(s[1..], i - 1);
    }
  }

  /** An entry is in the bucket of flag `flag` exactly when some entry with
      that item carries that flag. */
  lemma SelectMembership<T>(s: seq<Status<T>>, flag: bool, x: T)
    ensures x in Select(s, flag) <==> exists i :: 0 <= i < |s| && s[i].item == x && s[i].isVisible == flag
  {
    if exists i :: 0 <= i < |s| && s[i].item == x && s[i].isVisible == flag {
      var i :| 0 <= i < |s| && s[i].item == x && s[i].isVisible == flag;
      SelectMember(s, i);
    }
  }

  /** When every entry carries the same flag, that bucket is the whole list. */
  lemma {:induction false} SelectAll<T>(s: seq<Status<T>>, flag: bool)
    requires forall i :: 0 <= i < |s| ==> s[i].isVisible == flag
    ensures Select(s, flag) == Items(s)
    ensures Select(s, !flag) == []
  {
    if s != [] {
      SelectAll(s[1..], flag);
      assert Items(s) == [s[0].item] + Items(s[1..]);
    }
  }

  /** The two buckets split the list: sizes add up and, counting repeats,
      every entity is in exactly one of them. */
  lemma {:induction false} SelectPartition<T>(s: seq<Status<T>>)
    ensures |Select(s, true)| + |Select(s, false)| == |s|
    ensures multiset(Select(s, true)) + multiset(Select(s, false)) == multiset(Items(s))
  {
    if s != [] {
      SelectPartition(s[1..]);
      assert Items(s) == [s[0].item] + Items(s[1..]);
    }
  }
}
