/**
 * Chart entries: the (x, y) points handed to the chart library.  The x
 * ordinate is the running record id; the y value is either an integer or the
 * raw bit pattern of an IEEE 754 binary32 number.
 */
module Samples {

  /** The y value of a sample, before the chart library turns it into a Float. */
  datatype Value =
    | Int(n: int)            // a signed byte, int16 or int32 reading
    | Float32Bits(bits: nat) // the 32-bit pattern of a binary32 number

  /** One chart entry: record id (x axis) and value (y axis). */
  datatype Sample = Sample(id: nat, value: Value)

  /**
   * The last n elements of s (all of s when it is shorter, none when n is
   * not positive): the reference for every "keep the newest n" rule.
   */
  function Last<T>(s: seq<T>, n: int): (r: seq<T>)
    ensures |r| <= |s| && (n >= 0 ==> |r| <= n)
    ensures n >= 0 && |s| <= n ==> r == s
  {
    if n <= 0 then [] else if |s| <= n then s else s[|s| - n..]
  }

  /**
   * The ids of s are consecutive and the next id to be handed out is next:
   * the i-th sample from the end has id next - 1 - i.
   */
  ghost predicate EndsBefore(s: seq<Sample>, next: nat)
  {
    forall i :: 0 <= i < |s| ==> s[i].id + |s| - i == next
  }

  /** Ids numbered from first, in order. */
  ghost predicate NumberedFrom(s: seq<Sample>, first: nat)
  {
    forall k :: 0 <= k < |s| ==> s[k].id == first + k
  }

  /** Keeping only the newest elements keeps the ids consecutive. */
  lemma LastEndsBefore(s: seq<Sample>, n: int, next: nat)
    requires EndsBefore(s, next)
    ensures EndsBefore(Last(s, n), next)
  {
    var r := Last(s, n);
    forall i | 0 <= i < |r|
      ensures r[i].id + |r| - i == next
    {
      assert r[i] == s[|s| - |r| + i];
    }
  }

  /** Appending samples numbered from next keeps the ids consecutive. */
  lemma AppendEndsBefore(s: seq<Sample>, t: seq<Sample>, next: nat)
    requires EndsBefore(s, next) && NumberedFrom(t, next)
    ensures EndsBefore(s + t, next + |t|)
  {
    var u := s + t;
    forall i | 0 <= i < |u|
      ensures u[i].id + |u| - i == next + |t|
    {
      if i < |s| {
        assert u[i] == s[i];
      } else {
        assert u[i] == t[i - |s|];
      }
    }
  }

  /**
   * Keeping the newest n twice in a row is the same as keeping the newest n
   * of everything: a bounded window only ever forgets the oldest elements.
   */
  lemma LastOfLast<T>(s: seq<T>, t: seq<T>, n: int)
    ensures Last(Last(s, n) + t, n) == Last(s + t, n)
  {
    if n > 0 && |s| > n {
      var s' := s[|s| - n..];
      assert s + t == s[..|s| - n] + (s' + t);
      if |s' + t| > n {
        assert (s + t)[|s + t| - n..] == (s' + t)[|s' + t| - n..];
      } else {
        assert s' + t == s' && s + t == s;
      }
    }
  }

  /**
   * When the appended part fits, the newest k of s + t are t behind the
   * newest k - |t| of s.
   */
  lemma LastAppendTail<T>(s: seq<T>, t: seq<T>, k: int)
    requires |t| <= k
    ensures Last(s + t, k) == Last(s, k - |t|) + t
  {
    if k - |t| <= 0 {
      if k > 0 && |s + t| > k {
        assert (s + t)[|s + t| - k..] == t;
      }
    } else if |s| > k - |t| {
      assert (s + t)[|s + t| - k..] == s[|s| - (k - |t|)..] + t;
    }
  }
}
