/** Shared vocabulary: optional values, bytes, and the two edits the browser
    controllers perform on their arrays (append, and remove every equal
    element), together with what a replay of such edits leaves behind. */
module Common {

  /** A value that may be absent; stands for Swift optionals and for Core Data
      attributes that may be nil. */
  datatype Option<+T> = None | Some(value: T)

  /** An unsigned 8-bit value. */
  newtype byte = x: int | 0 <= x < 0x100

  /** Removes every element equal to `x`, keeping the others in order. This is
      both `Array.removeAll { $0 == x }` and `NSMutableArray.removeObject:`. */
  function RemoveAll<T(==)>(s: seq<T>, x: T): (r: seq<T>)
    ensures x !in r
    ensures multiset(r) == multiset(s)[x := 0]
    ensures |r| <= |s|
  {
    if |s| == 0 then []
    else
      assert s == [s[0]] + s[1..];
      if s[0] == x then RemoveAll(s[1..], x)
      else [s[0]] + RemoveAll(s[1..], x)
  }

  /** Removal distributes over concatenation, which pins down that the
      surviving elements keep their relative order. */
  lemma {:induction false} RemoveAllAppend<T>(s: seq<T>, t: seq<T>, x: T)
    ensures RemoveAll(s + t, x) == RemoveAll(s, x) + RemoveAll(t, x)
  {
    if |s| == 0 {
      assert s + t == t;
    } else {
      assert (s + t)[1..] == s[1..] + t;
      RemoveAllAppend(s[1..], t, x);
    }
  }

  /** One edit of an array kept by a browser controller. */
  datatype ListEdit<T> = Append(item: T) | RemoveEvery(item: T)

  function ApplyEdit<T(==)>(s: seq<T>, e: ListEdit<T>): (r: seq<T>)
    ensures e.Append? ==> r == s + [e.item]
    ensures e.RemoveEvery? ==> e.item !in r && |r| <= |s|
  {
    match e
    case Append(x) => s + [x]
    case RemoveEvery(x) => RemoveAll(s, x)
  }

  /** The array after the edits `es`, applied oldest first. */
  function ApplyEdits<T(==)>(s: seq<T>, es: seq<ListEdit<T>>): seq<T>
  {
    if |es| == 0 then s
    else ApplyEdit(ApplyEdits(s, es[..|es| - 1]), es[|es| - 1])
  }

  /** Some(true) when the most recent edit naming `x` appended it, Some(false)
      when it removed it, None when no edit names `x`. */
  function LastEditOf<T(==)>(es: seq<ListEdit<T>>, x: T): Option<bool>
  {
    if |es| == 0 then None
    else if es[|es| - 1].item == x then Some(es[|es| - 1].Append?)
    else LastEditOf(es[..|es| - 1], x)
  }

  /** Membership in a replayed array is decided by the most recent edit that
      names the element; elements no edit names keep their initial membership. */
  lemma {:induction false} MembershipFollowsLastEdit<T>(s: seq<T>, es: seq<ListEdit<T>>, x: T)
    ensures x in ApplyEdits(s, es) <==>
      (LastEditOf(es, x) == Some(true) || (LastEditOf(es, x) == None && x in s))
  {
    if |es| > 0 {
      var prev := ApplyEdits(s, es[..|es| - 1]);
      var e := es[|es| - 1];
      MembershipFollowsLastEdit(s, es[..|es| - 1], x);
      if e.item != x {
        match e
        case Append(y) =>
          assert x in prev + [y] <==> x in prev;
        case RemoveEvery(y) =>
          var r := RemoveAll(prev, y);
          assert multiset(r)[x] == multiset(prev)[x];
          assert x in r <==> x in multiset(r);
      }
    }
  }
}
