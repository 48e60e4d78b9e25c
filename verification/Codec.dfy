/** The outcomes of snapshot operations, and repetition in the wire format: a counted list of
    elements, decoded and encoded element by element, for an arbitrary element codec. */
module Codec {
  import opened Bytes

  /** Section, table and column names are UTF-8 byte strings. */
  type Name = seq<byte>

  datatype What = PastEnd | NotUtf8 | RowsButNoColumns | UnknownTag | TrailingBytes

  datatype Mismatch = NotExported | DuplicateUnit | ColumnsDiffer | MissingFromArtifact

  datatype SnapshotError =
    | Db
    | MissingPrimaryKey(table: Name)
    | NonCanonicalFloat(table: Name, column: Name)
    | UnknownExcludedColumn(table: Name, column: Name)
    | BadMagic
    | UnsupportedArtifactVersion(found: u32)
    | Malformed(offset: nat, what: What)
    | SchemaMismatch(section: Name, table: Name, detail: Mismatch)
    | TargetNotEmpty(table: Name)

  datatype Result<+T> = Ok(value: T) | Err(error: SnapshotError) {
    predicate IsFailure() { Err? }
    function PropagateFailure<U>(): Result<U> requires Err? { Err(error) }
    function Extract(): T requires Ok? { value }
  }

  datatype Option<+T> = None | Some(value: T)

  /** What a decoder at a position yields: a value and the next position, or the error. */
  datatype Parsed<+T> = Got(value: T, pos: nat) | Fail(error: SnapshotError) {
    predicate IsFailure() { Fail? }
    function PropagateFailure<U>(): Parsed<U> requires Fail? { Fail(error) }
    function Extract(): (T, nat) requires Got? { (value, pos) }
  }

  type Parser<!T> = (seq<byte>, nat) -> Parsed<T>

  function EncodeMany<T>(enc: T -> seq<byte>, xs: seq<T>): seq<byte> {
    if xs == [] then [] else enc(xs[0]) + EncodeMany(enc, xs[1..])
  }

  function ParseMany<T>(f: Parser<T>, buf: seq<byte>, pos: nat, count: nat): Parsed<seq<T>>
    decreases count
  {
    if count == 0 then Got([], pos) else
    var (x, p) :- f(buf, pos);
    var (xs, q) :- ParseMany(f, buf, p, count - 1);
    Got([x] + xs, q)
  }

  /** The bytes at `pos` up to `p` are `s`. */
  ghost predicate Spans(buf: seq<byte>, pos: nat, s: seq<byte>, p: nat) {
    At(buf, pos, s) && p == pos + |s|
  }

  lemma {:induction false} SpansConcat(buf: seq<byte>, pos: nat, a: seq<byte>, p: nat, b: seq<byte>, q: nat)
    requires Spans(buf, pos, a, p)
    ensures Spans(buf, pos, a + b, q) <==> Spans(buf, p, b, q)
  {
    AtConcat(buf, pos, a, b);
  }

  /** `f` decodes `x` exactly where the bytes encode a fitting `x`. */
  ghost predicate Exact<T(!new)>(f: Parser<T>, enc: T -> seq<byte>, fits: T -> bool, buf: seq<byte>) {
    forall pos: nat, x, p: nat | pos <= |buf| ::
      f(buf, pos) == Got(x, p) <==> fits(x) && Spans(buf, pos, enc(x), p)
  }

  ghost predicate AllFit<T>(fits: T -> bool, xs: seq<T>) {
    forall i :: 0 <= i < |xs| ==> fits(xs[i])
  }

  lemma {:induction false} ManySound<T(!new)>(
    f: Parser<T>, enc: T -> seq<byte>, fits: T -> bool, buf: seq<byte>, pos: nat, count: nat, xs: seq<T>, p: nat)
    requires Exact(f, enc, fits, buf) && pos <= |buf|
    requires ParseMany(f, buf, pos, count) == Got(xs, p)
    ensures |xs| == count && AllFit(fits, xs) && Spans(buf, pos, EncodeMany(enc, xs), p)
    decreases count
  {
    if count > 0 {
      var Got(x, q) := f(buf, pos);
      assert Spans(buf, pos, enc(x), q);
      var rest := xs[1..];
      assert xs == [x] + rest;
      ManySound(f, enc, fits, buf, q, count - 1, rest, p);
      SpansConcat(buf, pos, enc(x), q, EncodeMany(enc, rest), p);
    }
  }

  lemma {:induction false} ManyComplete<T(!new)>(
    f: Parser<T>, enc: T -> seq<byte>, fits: T -> bool, buf: seq<byte>, pos: nat, xs: seq<T>, p: nat)
    requires Exact(f, enc, fits, buf) && AllFit(fits, xs) && Spans(buf, pos, EncodeMany(enc, xs), p)
    ensures ParseMany(f, buf, pos, |xs|) == Got(xs, p)
    decreases |xs|
  {
    if xs != [] {
      var x, rest, q := xs[0], xs[1..], pos + |enc(xs[0])|;
      AtConcat(buf, pos, enc(x), EncodeMany(enc, rest));
      assert Spans(buf, pos, enc(x), q);
      ManyComplete(f, enc, fits, buf, q, rest, p);
      assert xs == [x] + rest;
    }
  }

  /** A counted list decodes exactly when its element decoder does. */
  lemma {:induction false} ManyExact<T(!new)>(
    f: Parser<T>, enc: T -> seq<byte>, fits: T -> bool, buf: seq<byte>, pos: nat, count: nat, xs: seq<T>, p: nat)
    requires Exact(f, enc, fits, buf) && pos <= |buf|
    ensures ParseMany(f, buf, pos, count) == Got(xs, p)
       <==> |xs| == count && AllFit(fits, xs) && Spans(buf, pos, EncodeMany(enc, xs), p)
  {
    if ParseMany(f, buf, pos, count) == Got(xs, p) {
      ManySound(f, enc, fits, buf, pos, count, xs, p);
    }
    if |xs| == count && AllFit(fits, xs) && Spans(buf, pos, EncodeMany(enc, xs), p) {
      ManyComplete(f, enc, fits, buf, pos, xs, p);
    }
  }

  // ----- the same list seen from a loop, one element at a time

  lemma {:induction false} EncodeManyAppend<T>(enc: T -> seq<byte>, xs: seq<T>, ys: seq<T>)
    ensures EncodeMany(enc, xs + ys) == EncodeMany(enc, xs) + EncodeMany(enc, ys)
  {
    if xs == [] {
      assert xs + ys == ys;
    } else {
      assert (xs + ys)[1..] == xs[1..] + ys;
      EncodeManyAppend(enc, xs[1..], ys);
    }
  }

  /** The outcome of a list decode of which the elements `done` are already decoded. */
  function Resume<T>(done: seq<T>, rest: Parsed<seq<T>>): Parsed<seq<T>> {
    match rest
    case Got(xs, p) => Got(done + xs, p)
    case Fail(e) => Fail(e)
  }

  lemma {:induction false} ResumeEnds<T>(whole: Parsed<seq<T>>, done: seq<T>, pos: nat)
    ensures Resume([], whole) == whole && Resume(done, Got([], pos)) == Got(done, pos)
  {
    assert whole.Got? ==> [] + whole.value == whole.value;
    assert done + [] == done;
  }

  lemma {:induction false} ResumeCons<T>(done: seq<T>, x: T, xs: seq<T>, p: nat)
    ensures Resume(done, Got([x] + xs, p)) == Resume(done + [x], Got(xs, p))
  {
    assert done + ([x] + xs) == done + [x] + xs;
  }

  /** One loop iteration of a list decode. */
  lemma {:induction false} ResumeStep<T>(f: Parser<T>, buf: seq<byte>, pos: nat, count: nat, done: seq<T>)
    requires count > 0
    ensures match f(buf, pos)
            case Fail(e) => Resume(done, ParseMany(f, buf, pos, count)) == Fail(e)
            case Got(x, p) =>
              Resume(done, ParseMany(f, buf, pos, count)) == Resume(done + [x], ParseMany(f, buf, p, count - 1))
  {
    match f(buf, pos)
    case Fail(_) =>
    case Got(x, p) =>
      match ParseMany(f, buf, p, count - 1)
      case Fail(_) =>
      case Got(xs, q) =>
        ResumeCons(done, x, xs, q);
  }

  // ----- doing one fallible thing per element, stopping at the first failure

  function Traverse<T, U>(f: T -> Result<U>, xs: seq<T>): Result<seq<U>> {
    if xs == [] then Ok([]) else
    var ys :- Traverse(f, xs[..|xs| - 1]);
    var y :- f(xs[|xs| - 1]);
    Ok(ys + [y])
  }

  lemma {:induction false} TraverseOk<T, U>(f: T -> Result<U>, xs: seq<T>, ys: seq<U>)
    ensures Traverse(f, xs) == Ok(ys) <==> |ys| == |xs| && forall i :: 0 <= i < |xs| ==> f(xs[i]) == Ok(ys[i])
  {
    if xs != [] && ys != [] {
      var init, ini := xs[..|xs| - 1], ys[..|ys| - 1];
      TraverseOk(f, init, ini);
      assert xs == init + [xs[|xs| - 1]] && ys == ini + [ys[|ys| - 1]];
      if |ys| == |xs| && forall i :: 0 <= i < |xs| ==> f(xs[i]) == Ok(ys[i]) {
        assert f(xs[|xs| - 1]) == Ok(ys[|xs| - 1]);
      }
    }
  }

  lemma {:induction false} TraverseAllOk<T, U>(f: T -> Result<U>, xs: seq<T>)
    requires forall i :: 0 <= i < |xs| ==> f(xs[i]).Ok?
    ensures Traverse(f, xs).Ok?
  {
    if xs != [] {
      TraverseAllOk(f, xs[..|xs| - 1]);
      assert f(xs[|xs| - 1]).Ok?;
    }
  }

  /** A failure on a prefix is the failure of the whole. */
  lemma {:induction false} TraverseErr<T, U>(f: T -> Result<U>, xs: seq<T>, n: nat)
    requires n <= |xs| && Traverse(f, xs[..n]).Err?
    ensures Traverse(f, xs) == Traverse(f, xs[..n])
    decreases |xs|
  {
    if n < |xs| {
      var init := xs[..|xs| - 1];
      assert init[..n] == xs[..n];
      TraverseErr(f, init, n);
    } else {
      assert xs[..n] == xs;
    }
  }

  /** A traversal depends only on what it does to each element. */
  lemma {:induction false} TraverseCongruent<S, T, U>(f: S -> Result<U>, xs: seq<S>, g: T -> Result<U>, ys: seq<T>)
    requires |xs| == |ys| && forall i :: 0 <= i < |xs| ==> f(xs[i]) == g(ys[i])
    ensures Traverse(f, xs) == Traverse(g, ys)
  {
    if xs != [] {
      TraverseCongruent(f, xs[..|xs| - 1], g, ys[..|ys| - 1]);
    }
  }

  /** One loop iteration of a traversal. */
  lemma {:induction false} TraverseStep<T, U>(f: T -> Result<U>, xs: seq<T>, n: nat, ys: seq<U>)
    requires n < |xs| && Traverse(f, xs[..n]) == Ok(ys)
    ensures match f(xs[n])
            case Err(e) => Traverse(f, xs) == Err(e)
            case Ok(y) => Traverse(f, xs[..n + 1]) == Ok(ys + [y])
  {
    assert xs[..n + 1][..n] == xs[..n];
    if f(xs[n]).Err? {
      TraverseErr(f, xs, n + 1);
    }
  }
}
