/** Sequence helpers shared by the compiler: removal, chunking and joining. */
module Lists {

  /** `xs` without every element that occurs in `ys` (Swift's `filter { !ys.contains($0) }`). */
  function Without<T(==)>(xs: seq<T>, ys: seq<T>): (r: seq<T>)
    ensures |r| <= |xs|
    decreases |xs|
  {
    if |xs| == 0 then []
    else (if xs[0] in ys then [] else [xs[0]]) + Without(xs[1..], ys)
  }

  /** What `Without` keeps: the elements of `xs` that are not in `ys`. */
  lemma {:induction false} WithoutMembers<T>(xs: seq<T>, ys: seq<T>, x: T)
    ensures x in Without(xs, ys) <==> x in xs && x !in ys
    decreases |xs|
  {
    if |xs| > 0 {
      WithoutMembers(xs[1..], ys, x);
      assert xs == [xs[0]] + xs[1..];
    }
  }

  /** Removing the elements of `ys` and then `d` is removing the elements of `ys + [d]`. */
  lemma {:induction false} WithoutSnoc<T>(xs: seq<T>, ys: seq<T>, d: T)
    ensures Without(Without(xs, ys), [d]) == Without(xs, ys + [d])
    decreases |xs|
  {
    if |xs| > 0 {
      WithoutSnoc(xs[1..], ys, d);
      var w := Without(xs, ys);
      if xs[0] !in ys {
        assert w == [xs[0]] + Without(xs[1..], ys);
        assert w[0] == xs[0] && w[1..] == Without(xs[1..], ys);
        assert Without(w, [d]) == (if xs[0] in [d] then [] else [xs[0]]) + Without(w[1..], [d]);
      } else {
        assert w == Without(xs[1..], ys);
      }
    }
  }

  /** Removing nothing changes nothing. */
  lemma {:induction false} WithoutNothing<T>(xs: seq<T>)
    ensures Without(xs, []) == xs
    decreases |xs|
  {
    if |xs| > 0 {
      WithoutNothing(xs[1..]);
      assert xs == [xs[0]] + xs[1..];
    }
  }

  /** The elements of `xs` that also occur in `ys`, in the order of `xs`. */
  function Common<T(==)>(xs: seq<T>, ys: seq<T>): (r: seq<T>)
    ensures |r| <= |xs|
    decreases |xs|
  {
    if |xs| == 0 then []
    else Common(xs[..|xs| - 1], ys) + (if xs[|xs| - 1] in ys then [xs[|xs| - 1]] else [])
  }

  /** What `Common` keeps: the elements of `xs` that are also in `ys`. */
  lemma {:induction false} CommonMembers<T>(xs: seq<T>, ys: seq<T>, x: T)
    ensures x in Common(xs, ys) <==> x in xs && x in ys
    decreases |xs|
  {
    if |xs| > 0 {
      CommonMembers(xs[..|xs| - 1], ys, x);
      assert xs == xs[..|xs| - 1] + [xs[|xs| - 1]];
    }
  }

  /** Keeping the common elements twice keeps the same ones. */
  lemma {:induction false} CommonIdempotent<T>(xs: seq<T>, ys: seq<T>)
    ensures Common(Common(xs, ys), ys) == Common(xs, ys)
    decreases |xs|
  {
    if |xs| > 0 {
      var init := xs[..|xs| - 1];
      var x := xs[|xs| - 1];
      CommonIdempotent(init, ys);
      var c := Common(init, ys);
      if x in ys {
        var cx := c + [x];
        assert cx[..|cx| - 1] == c;
        assert Common(cx, ys) == Common(c, ys) + [x];
      } else {
        assert Common(xs, ys) == c + [] == c;
      }
    }
  }

  /** The concatenation of a sequence of sequences. */
  function Flatten<T>(xss: seq<seq<T>>): (r: seq<T>)
    decreases |xss|
  {
    if |xss| == 0 then [] else xss[0] + Flatten(xss[1..])
  }

  /**
   * `xs` cut into contiguous chunks of at most `n` elements (the collaborator
   * `Array.chunked(into:)`): every chunk is non-empty and at most `n` long,
   * the chunks concatenate back to `xs`, and there are ceil(|xs| / n) of them
   * (the last chunk alone may be shorter than `n`).
   */
  function Chunks<T>(xs: seq<T>, n: nat): (r: seq<seq<T>>)
    requires n > 0
    ensures xs == [] <==> r == []
    decreases |xs|
  {
    if |xs| == 0 then []
    else if |xs| <= n then [xs]
    else [xs[..n]] + Chunks(xs[n..], n)
  }

  /**
   * The chunks cover `xs` in order, none is empty or longer than `n`, and all
   * but the last are exactly `n` long.
   */
  lemma {:induction false} ChunksShape<T>(xs: seq<T>, n: nat)
    requires n > 0
    ensures var r := Chunks(xs, n);
      Flatten(r) == xs &&
      (forall i :: 0 <= i < |r| ==> 0 < |r[i]| <= n) &&
      (forall i :: 0 <= i < |r| - 1 ==> |r[i]| == n)
    decreases |xs|
  {
    if |xs| > n {
      var rest := Chunks(xs[n..], n);
      ChunksShape(xs[n..], n);
      var r := [xs[..n]] + rest;
      assert r[1..] == rest;
      assert forall i :: 1 <= i < |r| ==> r[i] == rest[i - 1];
      assert xs == xs[..n] + xs[n..];
    } else if |xs| > 0 {
      assert Flatten([xs]) == xs + Flatten([]);
    }
  }

  /** There are ceil(|xs| / n) chunks: all but the last are full. */
  lemma {:induction false} ChunksCount<T>(xs: seq<T>, n: nat)
    requires n > 0 && |xs| > 0
    ensures var k := |Chunks(xs, n)|; (k - 1) * n < |xs| <= k * n
    decreases |xs|
  {
    if |xs| > n {
      var rest := Chunks(xs[n..], n);
      assert Chunks(xs, n) == [xs[..n]] + rest;
      ChunksCount(xs[n..], n);
      assert (|rest| - 1) * n == |rest| * n - n && (|rest| + 1) * n == |rest| * n + n;
    }
  }

  /** `xs` is a whole number of chunks of exactly `n`. */
  predicate FullChunks<T>(xs: seq<T>, n: nat)
    decreases |xs|
  {
    |xs| == 0 || (n > 0 && |xs| >= n && FullChunks(xs[n..], n))
  }

  /** Whole chunks followed by a last piece of at most `n` chunk as expected. */
  lemma {:induction false} ChunksAppendLast<T>(xs: seq<T>, last: seq<T>, n: nat)
    requires n > 0 && FullChunks(xs, n) && 0 < |last| <= n
    ensures Chunks(xs + last, n) == Chunks(xs, n) + [last]
    decreases |xs|
  {
    if |xs| == 0 {
      assert xs + last == last;
    } else {
      var rest := xs[n..];
      ChunksAppendLast(rest, last, n);
      assert (xs + last)[..n] == xs[..n];
      assert (xs + last)[n..] == rest + last;
      assert Chunks(xs + last, n) == [xs[..n]] + Chunks(rest + last, n);
      if |xs| == n {
        assert xs[..n] == xs;
        assert Chunks(rest, n) == [];
      }
    }
  }

  /** Whole chunks followed by one more whole chunk are whole chunks. */
  lemma {:induction false} FullChunksAppend<T>(xs: seq<T>, last: seq<T>, n: nat)
    requires n > 0 && FullChunks(xs, n) && |last| == n
    ensures FullChunks(xs + last, n)
    decreases |xs|
  {
    if |xs| == 0 {
      assert xs + last == last;
      assert last[n..] == [];
    } else {
      FullChunksAppend(xs[n..], last, n);
      assert (xs + last)[n..] == xs[n..] + last;
    }
  }

  /** The strings of `xs` joined by `sep` (Swift's `joined(separator:)`). */
  function Join(xs: seq<string>, sep: string): (r: string)
    ensures |xs| == 1 ==> r == xs[0]
    decreases |xs|
  {
    if |xs| == 0 then ""
    else if |xs| == 1 then xs[0]
    else xs[0] + sep + Join(xs[1..], sep)
  }

  /** Joining starts with the first string and ends with the last. */
  lemma {:induction false} JoinEnds(xs: seq<string>, sep: string)
    requires |xs| > 0
    ensures Join(xs, sep)[..|xs[0]|] == xs[0]
    ensures |Join(xs, sep)| >= |xs[|xs| - 1]|
    ensures Join(xs, sep)[|Join(xs, sep)| - |xs[|xs| - 1]|..] == xs[|xs| - 1]
    decreases |xs|
  {
    if |xs| > 1 {
      JoinEnds(xs[1..], sep);
      var j := Join(xs[1..], sep);
      assert Join(xs, sep) == xs[0] + sep + j;
      assert (xs[0] + sep + j)[|xs[0] + sep + j| - |xs[|xs| - 1]|..] == j[|j| - |xs[|xs| - 1]|..];
    }
  }
}
