/**
 Codes that map a symbol to a nonempty string and texts to concatenations, as UTF-8 does.  What
 holds of one symbol is carried to whole texts here, for any encoder and decoder.
 */
module PrefixCodes {
  import opened Common

  /** A decoded symbol and the length of its encoding. */
  datatype Step<+S> = Step(symbol: S, length: nat)

  function EncodeAll<S, T>(encode: S -> seq<T>, xs: seq<S>): seq<T> {
    if xs == [] then [] else encode(xs[0]) + EncodeAll(encode, xs[1..])
  }

  /** Decoding symbol after symbol until the end, or None at the first malformed one. */
  function DecodeAll<S, T>(decode: seq<T> -> Option<Step<S>>, data: seq<T>): Option<seq<S>>
    decreases |data|
  {
    if data == [] then Some([])
    else
      match decode(data)
      case None => None
      case Some(step) =>
        if !(0 < step.length <= |data|) then None
        else
          match DecodeAll(decode, data[step.length..])
          case None => None
          case Some(xs) => Some([step.symbol] + xs)
  }

  /** The decoder recovers an encoded symbol, whatever follows it. */
  ghost predicate Recovers<S(!new), T(!new)>(symbol: S -> bool, encode: S -> seq<T>, decode: seq<T> -> Option<Step<S>>) {
    forall x :: symbol(x) ==> IsRecovered(x, encode(x), decode)
  }

  ghost predicate IsRecovered<S, T(!new)>(x: S, encoded: seq<T>, decode: seq<T> -> Option<Step<S>>) {
    encoded != [] && forall rest :: decode(encoded + rest) == Some(Step(x, |encoded|))
  }

  /** Whatever the decoder accepts is the encoding of the symbol it reports. */
  ghost predicate AcceptsOnlyEncodings<S, T(!new)>(symbol: S -> bool, encode: S -> seq<T>, decode: seq<T> -> Option<Step<S>>) {
    forall data :: decode(data).Some? ==>
      var step := decode(data).value;
      symbol(step.symbol) && 0 < step.length <= |data| && data[..step.length] == encode(step.symbol)
  }

  ghost predicate AllSymbols<S>(symbol: S -> bool, xs: seq<S>) {
    forall x :: x in xs ==> symbol(x)
  }

  lemma {:induction false} DecodesBack<S(!new), T(!new)>(symbol: S -> bool, encode: S -> seq<T>, decode: seq<T> -> Option<Step<S>>, xs: seq<S>)
    requires Recovers(symbol, encode, decode) && AllSymbols(symbol, xs)
    ensures DecodeAll(decode, EncodeAll(encode, xs)) == Some(xs)
  {
    if xs != [] {
      var first, rest := encode(xs[0]), EncodeAll(encode, xs[1..]);
      assert IsRecovered(xs[0], first, decode);
      assert decode(first + rest) == Some(Step(xs[0], |first|));
      assert (first + rest)[|first|..] == rest;
      DecodesBack(symbol, encode, decode, xs[1..]);
      assert xs == [xs[0]] + xs[1..];
    }
  }

  lemma EncodeOneMore<S, T>(encode: S -> seq<T>, x: S, xs: seq<S>)
    ensures EncodeAll(encode, [x] + xs) == encode(x) + EncodeAll(encode, xs)
  {
    assert ([x] + xs)[1..] == xs;
  }

  lemma AcceptedStep<S(!new), T(!new)>(symbol: S -> bool, encode: S -> seq<T>, decode: seq<T> -> Option<Step<S>>, data: seq<T>)
    requires AcceptsOnlyEncodings(symbol, encode, decode) && decode(data).Some?
    ensures var step := decode(data).value;
            && symbol(step.symbol) && 0 < step.length <= |data|
            && encode(step.symbol) + data[step.length..] == data
  {
    var step := decode(data).value;
    assert data[..step.length] == encode(step.symbol);
  }

  lemma DecodeOneMore<S, T>(decode: seq<T> -> Option<Step<S>>, data: seq<T>, xs: seq<S>) returns (step: Step<S>, tail: seq<S>)
    requires data != [] && DecodeAll(decode, data) == Some(xs)
    ensures decode(data) == Some(step) && 0 < step.length <= |data|
    ensures DecodeAll(decode, data[step.length..]) == Some(tail) && xs == [step.symbol] + tail
  {
    step := decode(data).value;
    tail := DecodeAll(decode, data[step.length..]).value;
  }

  lemma {:induction false} EncodesBack<S(!new), T(!new)>(symbol: S -> bool, encode: S -> seq<T>, decode: seq<T> -> Option<Step<S>>, data: seq<T>, xs: seq<S>)
    requires AcceptsOnlyEncodings(symbol, encode, decode)
    requires DecodeAll(decode, data) == Some(xs)
    ensures AllSymbols(symbol, xs) && EncodeAll(encode, xs) == data
    decreases |data|
  {
    if data != [] {
      var step, tail := DecodeOneMore(decode, data, xs);
      AcceptedStep(symbol, encode, decode, data);
      EncodesBack(symbol, encode, decode, data[step.length..], tail);
      EncodeOneMore(encode, step.symbol, tail);
    }
  }

  /** Strict lexicographic order. */
  ghost predicate Less<T>(before: (T, T) -> bool, a: seq<T>, b: seq<T>) {
    && b != []
    && (a == [] || before(a[0], b[0]) || (a[0] == b[0] && Less(before, a[1..], b[1..])))
  }

  /** The two strings differ before either ends, and `a` is smaller there. */
  ghost predicate Diverges<T>(before: (T, T) -> bool, a: seq<T>, b: seq<T>) {
    && a != [] && b != []
    && (before(a[0], b[0]) || (a[0] == b[0] && Diverges(before, a[1..], b[1..])))
  }

  ghost predicate IsStrictTotal<T(!new)>(before: (T, T) -> bool) {
    && (forall x, y :: before(x, y) ==> x != y && !before(y, x))
    && (forall x, y :: before(x, y) || before(y, x) || x == y)
  }

  lemma {:induction false} DivergesIsLess<T(!new)>(before: (T, T) -> bool, a: seq<T>, b: seq<T>, s: seq<T>, t: seq<T>)
    requires IsStrictTotal(before) && Diverges(before, a, b)
    ensures Less(before, a + s, b + t) && !Less(before, b + t, a + s)
  {
    if !before(a[0], b[0]) {
      DivergesIsLess(before, a[1..], b[1..], s, t);
      assert (a + s)[1..] == a[1..] + s && (b + t)[1..] == b[1..] + t;
    }
  }

  lemma {:induction false} LessBehindPrefix<T(!new)>(before: (T, T) -> bool, p: seq<T>, a: seq<T>, b: seq<T>)
    requires IsStrictTotal(before)
    ensures Less(before, p + a, p + b) <==> Less(before, a, b)
  {
    if p == [] {
      assert p + a == a && p + b == b;
    } else {
      LessBehindPrefix(before, p[1..], a, b);
      assert (p + a)[1..] == p[1..] + a && (p + b)[1..] == p[1..] + b;
    }
  }

  /** If encodings of different symbols diverge in the order of the symbols, then encoded texts are
      ordered as the texts. */
  lemma {:induction false} KeepsOrder<S(!new), T(!new)>(symbol: S -> bool, encode: S -> seq<T>, pointBefore: (S, S) -> bool,
                                                         before: (T, T) -> bool, xs: seq<S>, ys: seq<S>)
    requires IsStrictTotal(before) && IsStrictTotal(pointBefore)
    requires forall x :: symbol(x) ==> encode(x) != []
    requires forall x, y :: symbol(x) && symbol(y) && pointBefore(x, y) ==> Diverges(before, encode(x), encode(y))
    requires AllSymbols(symbol, xs) && AllSymbols(symbol, ys)
    ensures Less(before, EncodeAll(encode, xs), EncodeAll(encode, ys)) <==> Less(pointBefore, xs, ys)
  {
    if xs != [] && ys != [] {
      var x, y := xs[0], ys[0];
      var s, t := EncodeAll(encode, xs[1..]), EncodeAll(encode, ys[1..]);
      assert symbol(x) && symbol(y);
      if x == y {
        KeepsOrder(symbol, encode, pointBefore, before, xs[1..], ys[1..]);
        LessBehindPrefix(before, encode(x), s, t);
      } else if pointBefore(x, y) {
        DivergesIsLess(before, encode(x), encode(y), s, t);
      } else {
        DivergesIsLess(before, encode(y), encode(x), t, s);
      }
    }
  }
}
