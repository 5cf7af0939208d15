/** Byte strings and contiguous occurrence: the vocabulary shared by the matcher,
    the rolling windows and the stream framing. */
module ByteStrings {

  type byte = b: int | 0 <= b < 256

  type Text = seq<byte>

  datatype Option<+T> = None | Some(value: T)

  predicate IsSuffix(s: Text, w: Text) {
    |s| <= |w| && w[|w| - |s|..] == s
  }

  predicate OccursAt(p: Text, t: Text, i: nat) {
    i + |p| <= |t| && t[i..i + |p|] == p
  }

  /** `p` occurs contiguously in `t`. */
  ghost predicate Occurs(p: Text, t: Text) {
    exists i: nat :: OccursAt(p, t, i)
  }

  /** The concatenation of a list of byte strings. */
  function Concat(parts: seq<Text>): (t: Text) {
    if parts == [] then [] else Concat(parts[..|parts| - 1]) + parts[|parts| - 1]
  }

  ghost predicate NoDuplicates<T(!new)>(s: seq<T>) {
    forall i, j :: 0 <= i < j < |s| ==> s[i] != s[j]
  }

  lemma {:induction false} TakeOneMore<T>(s: seq<T>, i: nat)
    requires i < |s|
    ensures s[..i + 1] == s[..i] + [s[i]] && s[..i + 1][..i] == s[..i]
  {
  }

  lemma {:induction false} SubsetSize<T>(a: set<T>, b: set<T>)
    requires a <= b
    ensures |a| <= |b|
  {
    if a != {} {
      var x :| x in a;
      SubsetSize(a - {x}, b - {x});
    }
  }

  lemma {:induction false} TakeAll<T>(s: seq<T>)
    ensures s[..|s|] == s && s[..0] == []
  {
  }

  lemma {:induction false} DropFirstOfSnoc<T>(s: seq<T>, x: T)
    requires s != []
    ensures (s + [x])[1..] == s[1..] + [x]
  {
  }

  /** Two suffixes of one string are ordered by length. */
  lemma {:induction false} SuffixesNest(s: Text, t: Text, w: Text)
    requires IsSuffix(s, w) && IsSuffix(t, w) && |s| <= |t|
    ensures IsSuffix(s, t)
  {
    assert t[|t| - |s|..] == w[|w| - |s|..];
  }

  lemma {:induction false} SuffixTransitive(s: Text, t: Text, w: Text)
    requires IsSuffix(s, t) && IsSuffix(t, w)
    ensures IsSuffix(s, w)
  {
    assert w[|w| - |s|..] == t[|t| - |s|..];
  }

  lemma {:induction false} ConcatAppend(a: seq<Text>, b: seq<Text>)
    ensures Concat(a + b) == Concat(a) + Concat(b)
  {
    if b == [] {
      assert a + b == a;
    } else {
      var k := |b| - 1;
      assert (a + b)[..|a + b| - 1] == a + b[..k] && (a + b)[|a + b| - 1] == b[k];
      ConcatAppend(a, b[..k]);
      assert Concat(a) + (Concat(b[..k]) + b[k]) == (Concat(a) + Concat(b[..k])) + b[k];
    }
  }

  /** Occurrence survives putting more text on both sides. */
  lemma {:induction false} OccursInContext(p: Text, before: Text, t: Text, after: Text)
    requires Occurs(p, t)
    ensures Occurs(p, before + t + after)
  {
    var i: nat :| OccursAt(p, t, i);
    var whole := before + t + after;
    assert whole[|before| + i..|before| + i + |p|] == t[i..i + |p|];
    assert OccursAt(p, whole, |before| + i);
  }
}
