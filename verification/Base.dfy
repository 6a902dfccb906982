/** Bytes, machine integers, results and the sequence facts the other modules share. */
module Base {

  type Byte = b: int | 0 <= b < 256
  type Bytes = seq<Byte>

  /** Rust's `u32`, the type of a frame's length header. */
  type U32 = n: int | 0 <= n < U32_RANGE
  const U32_RANGE: int := 0x1_0000_0000

  /** Message priority (a `u8`): the smaller the number, the more urgent the message. */
  type Priority = p: int | 0 <= p < 256

  datatype Option<+T> = None | Some(value: T)

  /** The error cases that the modelled code can return. */
  datatype SocketError = Io | PayloadSizeProhibitive | Serialisation | ZeroByteRead | Crypto

  datatype Res<+T> = Ok(value: T) | Err(error: SocketError)

  function Min(a: nat, b: nat): nat {
    if a <= b then a else b
  }

  lemma ConcatAssociative<T>(a: seq<T>, b: seq<T>, c: seq<T>)
    ensures a + (b + c) == (a + b) + c
  {
  }

  lemma EmptyBetween<T>(a: seq<T>, c: seq<T>)
    ensures a + [] + c == a + c
  {
  }

  lemma NothingBehind<T>(a: seq<T>)
    ensures a + [] == a
  {
  }

  lemma NothingBefore<T>(a: seq<T>)
    ensures [] + a == a
  {
  }

  lemma SameTail<T>(x: T, a: seq<T>, b: seq<T>)
    requires [x] + a == [x] + b
    ensures a == b
  {
    assert a == ([x] + a)[1..] && b == ([x] + b)[1..];
  }

  lemma HeadTail<T>(s: seq<T>)
    requires s != []
    ensures [s[0]] + s[1..] == s
  {
  }

  /** `part` can be obtained from `whole` by deleting elements. */
  ghost predicate IsSubsequence<T>(part: seq<T>, whole: seq<T>) {
    if part == [] then true
    else if whole == [] then false
    else if part[0] == whole[0] && IsSubsequence(part[1..], whole[1..]) then true
    else IsSubsequence(part, whole[1..])
  }

  lemma {:induction false} SubsequenceEmptyPart<T>(whole: seq<T>)
    ensures IsSubsequence<T>([], whole)
  {
  }

  lemma {:induction false} SubsequenceSnocSkip<T>(part: seq<T>, whole: seq<T>, x: T)
    requires IsSubsequence(part, whole)
    ensures IsSubsequence(part, whole + [x])
  {
    if part == [] {
    } else {
      assert (whole + [x])[1..] == whole[1..] + [x];
      if part[0] == whole[0] && IsSubsequence(part[1..], whole[1..]) {
        SubsequenceSnocSkip(part[1..], whole[1..], x);
      } else {
        SubsequenceSnocSkip(part, whole[1..], x);
      }
    }
  }

  lemma {:induction false} SubsequenceSnocKeep<T>(part: seq<T>, whole: seq<T>, x: T)
    requires IsSubsequence(part, whole)
    ensures IsSubsequence(part + [x], whole + [x])
  {
    if whole == [] {
      assert part == [];
      assert (part + [x])[1..] == [] && (whole + [x])[1..] == [];
    } else if part == [] {
      SubsequenceSnocKeep([], whole[1..], x);
      assert (whole + [x])[1..] == whole[1..] + [x];
      assert ([] + [x]) == [x];
      assert IsSubsequence([x], (whole + [x])[1..]);
      SubsequenceEmptyPart((whole + [x])[1..]);
    } else {
      assert (whole + [x])[1..] == whole[1..] + [x];
      if part[0] == whole[0] && IsSubsequence(part[1..], whole[1..]) {
        SubsequenceSnocKeep(part[1..], whole[1..], x);
        assert (part + [x])[1..] == part[1..] + [x];
      } else {
        SubsequenceSnocKeep(part, whole[1..], x);
      }
    }
  }

  lemma {:induction false} SubsequenceAppend<T>(part: seq<T>, whole: seq<T>, more: seq<T>)
    requires IsSubsequence(part, whole)
    ensures IsSubsequence(part, whole + more)
    decreases |more|
  {
    if more == [] {
      assert whole + more == whole;
    } else {
      SubsequenceSnocSkip(part, whole, more[0]);
      SubsequenceAppend(part, whole + [more[0]], more[1..]);
      assert whole + more == whole + [more[0]] + more[1..];
    }
  }

  lemma {:induction false} PrefixIsSubsequence<T>(part: seq<T>, whole: seq<T>, n: nat)
    requires n <= |part| && IsSubsequence(part, whole)
    ensures IsSubsequence(part[..n], whole)
    decreases |whole|
  {
    if n == 0 {
      SubsequenceEmptyPart(whole);
    } else if part[0] == whole[0] && IsSubsequence(part[1..], whole[1..]) {
      PrefixIsSubsequence(part[1..], whole[1..], n - 1);
      assert part[..n][1..] == part[1..][..n - 1];
    } else {
      PrefixIsSubsequence(part, whole[1..], n);
    }
  }

  /** `whole` interleaves the two parts, each in its own order. */
  ghost predicate IsMerge<T>(a: seq<T>, b: seq<T>, whole: seq<T>)
    decreases |whole|
  {
    if whole == [] then a == [] && b == []
    else
      var n := |whole| - 1;
      || (a != [] && a[|a| - 1] == whole[n] && IsMerge(a[..|a| - 1], b, whole[..n]))
      || (b != [] && b[|b| - 1] == whole[n] && IsMerge(a, b[..|b| - 1], whole[..n]))
  }

  lemma MergeSnocLeft<T>(a: seq<T>, b: seq<T>, whole: seq<T>, x: T)
    requires IsMerge(a, b, whole)
    ensures IsMerge(a + [x], b, whole + [x])
  {
    assert (a + [x])[..|a|] == a && (whole + [x])[..|whole|] == whole;
  }

  lemma MergeSnocRight<T>(a: seq<T>, b: seq<T>, whole: seq<T>, x: T)
    requires IsMerge(a, b, whole)
    ensures IsMerge(a, b + [x], whole + [x])
  {
    assert (b + [x])[..|b|] == b && (whole + [x])[..|whole|] == whole;
  }

  lemma {:induction false} MergeAppendRight<T>(a: seq<T>, b: seq<T>, whole: seq<T>, more: seq<T>)
    requires IsMerge(a, b, whole)
    ensures IsMerge(a, b + more, whole + more)
    decreases |more|
  {
    if more == [] {
      assert b + more == b && whole + more == whole;
    } else {
      MergeSnocRight(a, b, whole, more[0]);
      MergeAppendRight(a, b + [more[0]], whole + [more[0]], more[1..]);
      HeadTail(more);
      ConcatAssociative(b, [more[0]], more[1..]);
      ConcatAssociative(whole, [more[0]], more[1..]);
    }
  }

  lemma {:induction false} MergeWithNothing<T>(a: seq<T>, whole: seq<T>)
    requires IsMerge(a, [], whole)
    ensures a == whole
  {
    if whole != [] {
      MergeWithNothing(a[..|a| - 1], whole[..|whole| - 1]);
      assert a == a[..|a| - 1] + [a[|a| - 1]] && whole == whole[..|whole| - 1] + [whole[|whole| - 1]];
    }
  }

  lemma InitLast<T>(s: seq<T>)
    requires s != []
    ensures s == s[..|s| - 1] + [s[|s| - 1]]
    ensures multiset(s) == multiset(s[..|s| - 1]) + multiset{s[|s| - 1]}
  {
    assert s == s[..|s| - 1] + [s[|s| - 1]];
  }

  /** Both parts of an interleaving occur in it in order, and together they are all of it. */
  lemma {:induction false} MergeParts<T>(a: seq<T>, b: seq<T>, whole: seq<T>)
    requires IsMerge(a, b, whole)
    ensures IsSubsequence(a, whole) && IsSubsequence(b, whole)
    ensures multiset(whole) == multiset(a) + multiset(b)
    decreases |whole|
  {
    if whole != [] {
      var init, last := whole[..|whole| - 1], whole[|whole| - 1];
      InitLast(whole);
      if a != [] && a[|a| - 1] == last && IsMerge(a[..|a| - 1], b, init) {
        InitLast(a);
        MergeParts(a[..|a| - 1], b, init);
        SubsequenceSnocKeep(a[..|a| - 1], init, last);
        SubsequenceSnocSkip(b, init, last);
      } else {
        InitLast(b);
        MergeParts(a, b[..|b| - 1], init);
        SubsequenceSnocKeep(b[..|b| - 1], init, last);
        SubsequenceSnocSkip(a, init, last);
      }
    }
  }
}
