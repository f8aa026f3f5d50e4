/** Codecs between values and sequences of symbols (bits or bytes), their laws, and the two
    combinators both wire formats are made of. A lawful codec is an exact parser: it
    recovers every value it accepts, whatever follows it, and accepts nothing else. */
module Codecs {

  datatype Option<+T> = None | Some(value: T)

  /** `dec` returns the decoded value and the symbols it did not consume. */
  datatype Codec<!A, !T> = Codec(ok: T -> bool, enc: T -> seq<A>, dec: seq<A> -> Option<(T, seq<A>)>)

  ghost predicate Recovers<A(!new), T(!new)>(c: Codec<A, T>) {
    forall x: T, rest: seq<A> {:trigger c.dec(c.enc(x) + rest)} ::
      c.ok(x) ==> c.dec(c.enc(x) + rest) == Some((x, rest))
  }

  ghost predicate Exact<A(!new), T(!new)>(c: Codec<A, T>) {
    forall s: seq<A> {:trigger c.dec(s)} ::
      c.dec(s).Some? ==> c.ok(c.dec(s).value.0) && s == c.enc(c.dec(s).value.0) + c.dec(s).value.1
  }

  ghost predicate Lawful<A(!new), T(!new)>(c: Codec<A, T>) {
    Recovers(c) && Exact(c)
  }

  /** Every value the codec accepts takes exactly `size` symbols. */
  ghost predicate FixedSize<A(!new), T(!new)>(c: Codec<A, T>, size: nat) {
    forall x: T {:trigger c.enc(x)} :: c.ok(x) ==> |c.enc(x)| == size
  }

  /** The encoding of one value never begins the encoding of another. */
  lemma PrefixFree<A(!new), T(!new)>(c: Codec<A, T>, x: T, cut: seq<A>)
    requires Lawful(c) && c.ok(x)
    requires cut <= c.enc(x)
    ensures c.dec(cut).Some? <==> cut == c.enc(x)
    ensures c.dec(cut).Some? ==> c.dec(cut) == Some((x, []))
  {
    var missing := c.enc(x)[|cut|..];
    assert c.enc(x) == cut + missing;
    assert c.enc(x) + [] == c.enc(x);
    assert c.dec(c.enc(x) + []) == Some((x, []));
    if c.dec(cut).Some? {
      var (y, rest) := c.dec(cut).value;
      assert c.enc(x) == c.enc(y) + (rest + missing);
      assert c.dec(c.enc(y) + (rest + missing)) == Some((y, rest + missing));
    }
  }

  // ---- One value after another ---------------------------------------------------------

  ghost function PairDec<A, T, U>(c: Codec<A, T>, d: Codec<A, U>, s: seq<A>): Option<((T, U), seq<A>)> {
    match c.dec(s)
    case None => None
    case Some((x, mid)) =>
      match d.dec(mid)
      case None => None
      case Some((y, rest)) => Some(((x, y), rest))
  }

  ghost function Pair<A, T, U>(c: Codec<A, T>, d: Codec<A, U>): Codec<A, (T, U)> {
    Codec((p: (T, U)) => c.ok(p.0) && d.ok(p.1),
          (p: (T, U)) => c.enc(p.0) + d.enc(p.1),
          (s: seq<A>) => PairDec(c, d, s))
  }

  lemma PairLawful<A(!new), T(!new), U(!new)>(c: Codec<A, T>, d: Codec<A, U>)
    requires Lawful(c) && Lawful(d)
    ensures Lawful(Pair(c, d))
  {
    var p := Pair(c, d);
    forall x: (T, U), rest: seq<A> | p.ok(x)
      ensures p.dec(p.enc(x) + rest) == Some((x, rest))
    {
      assert p.enc(x) + rest == c.enc(x.0) + (d.enc(x.1) + rest);
      assert c.dec(c.enc(x.0) + (d.enc(x.1) + rest)) == Some((x.0, d.enc(x.1) + rest));
      assert d.dec(d.enc(x.1) + rest) == Some((x.1, rest));
    }
    forall s | p.dec(s).Some?
      ensures p.ok(p.dec(s).value.0) && s == p.enc(p.dec(s).value.0) + p.dec(s).value.1
    {
      var (x, mid) := c.dec(s).value;
      var (y, rest) := d.dec(mid).value;
      assert s == c.enc(x) + (d.enc(y) + rest);
    }
  }

  lemma PairFixedSize<A(!new), T(!new), U(!new)>(c: Codec<A, T>, d: Codec<A, U>, i: nat, j: nat)
    requires FixedSize(c, i) && FixedSize(d, j)
    ensures FixedSize(Pair(c, d), i + j)
  {
    forall x: (T, U) | Pair(c, d).ok(x)
      ensures |Pair(c, d).enc(x)| == i + j
    {
      assert |c.enc(x.0)| == i && |d.enc(x.1)| == j;
    }
  }

  // ---- A known number of values --------------------------------------------------------

  ghost function RepeatEnc<A, T>(c: Codec<A, T>, xs: seq<T>): seq<A> {
    if |xs| == 0 then [] else c.enc(xs[0]) + RepeatEnc(c, xs[1..])
  }

  ghost function Prepend<A, T>(done: seq<T>, r: Option<(seq<T>, seq<A>)>): Option<(seq<T>, seq<A>)> {
    match r
    case None => None
    case Some((xs, rest)) => Some((done + xs, rest))
  }

  ghost function RepeatDec<A, T>(c: Codec<A, T>, n: nat, s: seq<A>): Option<(seq<T>, seq<A>)> {
    if n == 0 then Some(([], s))
    else
      match c.dec(s)
      case None => None
      case Some((x, rest)) => Prepend([x], RepeatDec(c, n - 1, rest))
  }

  ghost predicate AllOk<A, T>(c: Codec<A, T>, xs: seq<T>) {
    forall i :: 0 <= i < |xs| ==> c.ok(xs[i])
  }

  ghost function Repeat<A, T>(c: Codec<A, T>, n: nat): Codec<A, seq<T>> {
    Codec((xs: seq<T>) => |xs| == n && AllOk(c, xs),
          (xs: seq<T>) => RepeatEnc(c, xs),
          (s: seq<A>) => RepeatDec(c, n, s))
  }

  lemma {:induction false} RepeatRecovers<A(!new), T(!new)>(c: Codec<A, T>, xs: seq<T>, rest: seq<A>)
    requires Lawful(c) && AllOk(c, xs)
    ensures RepeatDec(c, |xs|, RepeatEnc(c, xs) + rest) == Some((xs, rest))
  {
    if |xs| == 0 {
      assert RepeatEnc(c, xs) + rest == rest;
    } else {
      RepeatRecovers(c, xs[1..], rest);
      var tail := RepeatEnc(c, xs[1..]) + rest;
      assert RepeatEnc(c, xs) + rest == c.enc(xs[0]) + tail;
      assert c.dec(c.enc(xs[0]) + tail) == Some((xs[0], tail));
      assert [xs[0]] + xs[1..] == xs;
    }
  }

  lemma {:induction false} RepeatExact<A(!new), T(!new)>(c: Codec<A, T>, n: nat, s: seq<A>)
    requires Lawful(c)
    requires RepeatDec(c, n, s).Some?
    ensures |RepeatDec(c, n, s).value.0| == n && AllOk(c, RepeatDec(c, n, s).value.0)
    ensures s == RepeatEnc(c, RepeatDec(c, n, s).value.0) + RepeatDec(c, n, s).value.1
  {
    if n == 0 {
    } else {
      var (x, mid) := c.dec(s).value;
      RepeatExact(c, n - 1, mid);
      var (xs, rest) := RepeatDec(c, n - 1, mid).value;
      assert ([x] + xs)[1..] == xs;
      assert s == c.enc(x) + (RepeatEnc(c, xs) + rest);
    }
  }

  lemma RepeatLawful<A(!new), T(!new)>(c: Codec<A, T>, n: nat)
    requires Lawful(c)
    ensures Lawful(Repeat(c, n))
  {
    var r := Repeat(c, n);
    forall xs: seq<T>, rest: seq<A> | r.ok(xs)
      ensures r.dec(r.enc(xs) + rest) == Some((xs, rest))
    {
      RepeatRecovers(c, xs, rest);
    }
    forall s | r.dec(s).Some?
      ensures r.ok(r.dec(s).value.0) && s == r.enc(r.dec(s).value.0) + r.dec(s).value.1
    {
      RepeatExact(c, n, s);
    }
  }

  lemma {:induction false} RepeatEncSize<A(!new), T(!new)>(c: Codec<A, T>, size: nat, xs: seq<T>)
    requires FixedSize(c, size) && AllOk(c, xs)
    ensures |RepeatEnc(c, xs)| == |xs| * size
  {
    if |xs| == 0 {
    } else {
      RepeatEncSize(c, size, xs[1..]);
      assert |xs| * size == size + (|xs| - 1) * size;
    }
  }

  lemma RepeatFixedSize<A(!new), T(!new)>(c: Codec<A, T>, size: nat, n: nat)
    requires FixedSize(c, size)
    ensures n * size >= 0
    ensures FixedSize(Repeat(c, n), n * size)
  {
    forall xs: seq<T> | Repeat(c, n).ok(xs)
      ensures |Repeat(c, n).enc(xs)| == n * size
    {
      RepeatEncSize(c, size, xs);
    }
    assert n * size >= 0;
  }

  /** How a writing loop extends its output by one element. */
  lemma {:induction false} RepeatEncSnoc<A, T>(c: Codec<A, T>, xs: seq<T>, i: nat)
    requires i < |xs|
    ensures RepeatEnc(c, xs[..i + 1]) == RepeatEnc(c, xs[..i]) + c.enc(xs[i])
    decreases i
  {
    if i == 0 {
      assert xs[..1][1..] == [] && xs[..0] == [];
    } else {
      RepeatEncSnoc(c, xs[1..], i - 1);
      assert xs[..i + 1][1..] == xs[1..][..i];
      assert xs[..i][1..] == xs[1..][..i - 1];
    }
  }

  /** How a reading loop consumes one element. */
  lemma RepeatDecStep<A, T>(c: Codec<A, T>, n: nat, done: seq<T>, s: seq<A>)
    requires n > 0
    ensures c.dec(s).None? ==> Prepend(done, RepeatDec(c, n, s)) == None
    ensures c.dec(s).Some? ==>
              Prepend(done, RepeatDec(c, n, s))
              == Prepend(done + [c.dec(s).value.0], RepeatDec(c, n - 1, c.dec(s).value.1))
  {
    if c.dec(s).Some? {
      var (x, rest) := c.dec(s).value;
      if RepeatDec(c, n - 1, rest).Some? {
        var xs := RepeatDec(c, n - 1, rest).value.0;
        assert done + ([x] + xs) == (done + [x]) + xs;
      }
    }
  }

  lemma RepeatEncNone<A, T>(c: Codec<A, T>)
    ensures RepeatEnc(c, []) == []
  {
  }

  lemma RepeatDecNone<A, T>(c: Codec<A, T>, s: seq<A>)
    ensures RepeatDec(c, 0, s) == Some(([], s))
  {
  }

  lemma RepeatDone<A, T>(c: Codec<A, T>, done: seq<T>, s: seq<A>)
    ensures Prepend(done, RepeatDec(c, 0, s)) == Some((done, s))
  {
    assert done + [] == done;
  }

  lemma PrependNothing<A, T>(r: Option<(seq<T>, seq<A>)>)
    ensures Prepend([], r) == r
  {
    if r.Some? {
      assert [] + r.value.0 == r.value.0;
    }
  }

  // ---- Where items end up ----------------------------------------------------------------------

  ghost predicate PartAt<A>(s: seq<A>, at: nat, part: seq<A>) {
    at + |part| <= |s| && s[at..at + |part|] == part
  }

  lemma PartOfPart<A>(s: seq<A>, at: nat, part: seq<A>, inner: nat, sub: seq<A>)
    requires PartAt(s, at, part) && PartAt(part, inner, sub)
    ensures PartAt(s, at + inner, sub)
  {
    forall k | 0 <= k < |sub|
      ensures s[at + inner + k] == sub[k]
    {
      assert part[inner..inner + |sub|][k] == part[inner + k];
      assert s[at..at + |part|][inner + k] == s[at + (inner + k)];
    }
    assert s[at + inner..at + inner + |sub|] == sub;
  }

  lemma PairParts<A>(first: seq<A>, second: seq<A>)
    ensures PartAt(first + second, 0, first) && PartAt(first + second, |first|, second)
  {
  }

  lemma {:induction false} RepeatEncPrefix<A, T>(c: Codec<A, T>, xs: seq<T>, i: nat)
    requires i <= |xs|
    ensures RepeatEnc(c, xs[..i]) <= RepeatEnc(c, xs)
    decreases |xs| - i
  {
    if i == |xs| {
      assert xs[..i] == xs;
    } else {
      RepeatEncPrefix(c, xs, i + 1);
      RepeatEncSnoc(c, xs, i);
    }
  }

  /** Item `i` comes right behind the items before it. */
  lemma RepeatPart<A, T>(c: Codec<A, T>, xs: seq<T>, i: nat)
    requires i < |xs|
    ensures PartAt(RepeatEnc(c, xs), |RepeatEnc(c, xs[..i])|, c.enc(xs[i]))
  {
    RepeatEncPrefix(c, xs, i + 1);
    RepeatEncSnoc(c, xs, i);
  }

  // ---- Loops over the items of a Repeat ------------------------------------------------------

  /** One turn of a writing loop: item `i` goes behind the first `i` items. */
  lemma AppendItem<A, T>(c: Codec<A, T>, xs: seq<T>, i: nat, start: seq<A>, before: seq<A>, after: seq<A>)
    requires i < |xs|
    requires before == start + RepeatEnc(c, xs[..i])
    requires after == before + c.enc(xs[i])
    ensures after == start + RepeatEnc(c, xs[..i + 1])
  {
    RepeatEncSnoc(c, xs, i);
    assert (start + RepeatEnc(c, xs[..i])) + c.enc(xs[i]) == start + (RepeatEnc(c, xs[..i]) + c.enc(xs[i]));
  }

  /** One turn of a reading loop. */
  lemma NextItem<A, T>(c: Codec<A, T>, n: nat, done: seq<T>, before: seq<A>, x: T, after: seq<A>)
    requires n > 0
    requires c.dec(before) == Some((x, after))
    ensures Prepend(done, RepeatDec(c, n, before)) == Prepend(done + [x], RepeatDec(c, n - 1, after))
  {
    RepeatDecStep(c, n, done, before);
  }

  lemma NoItem<A, T>(c: Codec<A, T>, n: nat, done: seq<T>, before: seq<A>)
    requires n > 0
    requires c.dec(before) == None
    ensures Prepend(done, RepeatDec(c, n, before)) == None
  {
    RepeatDecStep(c, n, done, before);
  }
}
