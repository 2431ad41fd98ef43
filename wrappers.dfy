/** Failure-carrying values shared by every module of the model. */
module Wrappers {

  /** Python's `Optional[T]`: `None` or a present value. */
  datatype Option<+T> = None | Some(value: T) {
    /** The value, or `default` when there is none (`d.get(key, default)`). */
    function GetOr(default: T): (v: T)
      ensures Some? ==> v == value
      ensures None? ==> v == default
    {
      if Some? then value else default
    }
  }

  /** The exceptions (and `sys.exit` calls) that the modelled code lets escape. */
  datatype PyError =
    | ValueError       // `datetime.strptime` or `urlparse` rejected its input
    | OverflowError    // `date ± timedelta(days=1)` left the years 1..9999
    | WriteError       // the JSON file could not be written; the writer re-raises
    | AttributeError   // a `dict` method was called on a loaded JSON value that is not an object
    | SystemExit(code: int)

  /** A value, or the exception that replaced it. */
  datatype Result<+T> = Ok(value: T) | Err(error: PyError)

  /** Applies `f` to each element in order and keeps the present results; the first error
      raised ends the whole run. */
  function CollectPresent<T, U>(xs: seq<T>, f: T -> Result<Option<U>>): (r: Result<seq<U>>)
    ensures r.Ok? ==> |r.value| <= |xs|
  {
    if xs == [] then Ok([])
    else
      match CollectPresent(xs[..|xs| - 1], f)
      case Err(e) => Err(e)
      case Ok(front) =>
        match f(xs[|xs| - 1])
        case Err(e) => Err(e)
        case Ok(None) => Ok(front)
        case Ok(Some(y)) => Ok(front + [y])
  }

  /** One more element at the end. */
  lemma CollectSnoc<T, U>(xs: seq<T>, x: T, f: T -> Result<Option<U>>)
    ensures CollectPresent(xs + [x], f) ==
              match CollectPresent(xs, f)
              case Err(e) => Err(e)
              case Ok(front) =>
                match f(x)
                case Err(e) => Err(e)
                case Ok(None) => Ok(front)
                case Ok(Some(y)) => Ok(front + [y])
  {
    assert (xs + [x])[..|xs|] == xs;
  }

  /** The run over one more element of `xs`. */
  lemma CollectStep<T, U>(xs: seq<T>, i: nat, f: T -> Result<Option<U>>)
    requires i < |xs|
    ensures CollectPresent(xs[..i + 1], f) ==
              match CollectPresent(xs[..i], f)
              case Err(e) => Err(e)
              case Ok(front) =>
                match f(xs[i])
                case Err(e) => Err(e)
                case Ok(None) => Ok(front)
                case Ok(Some(y)) => Ok(front + [y])
  {
    assert xs[..i + 1][..i] == xs[..i];
  }

  /** The results of two runs are the results of the first followed by those of the second. */
  lemma {:induction false} CollectAppend<T, U>(a: seq<T>, b: seq<T>, f: T -> Result<Option<U>>)
    requires CollectPresent(a, f).Ok? && CollectPresent(b, f).Ok?
    ensures CollectPresent(a + b, f) == Ok(CollectPresent(a, f).value + CollectPresent(b, f).value)
    decreases |b|
  {
    if b == [] {
      assert a + b == a;
      assert CollectPresent(a, f).value + [] == CollectPresent(a, f).value;
    } else {
      var b', x := b[..|b| - 1], b[|b| - 1];
      assert b == b' + [x];
      assert a + b == (a + b') + [x];
      CollectSnoc(b', x, f);
      CollectSnoc(a + b', x, f);
      CollectAppend(a, b', f);
      var ra, rb' := CollectPresent(a, f).value, CollectPresent(b', f).value;
      if f(x).value.Some? {
        assert (ra + rb') + [f(x).value.value] == ra + (rb' + [f(x).value.value]);
      }
    }
  }

  /** An error in a prefix is an error for the whole run. */
  lemma {:induction false} CollectErrorSpreads<T, U>(xs: seq<T>, i: nat, f: T -> Result<Option<U>>)
    requires i <= |xs| && CollectPresent(xs[..i], f).Err?
    ensures CollectPresent(xs, f).Err?
    decreases |xs| - i
  {
    if i < |xs| {
      CollectSnoc(xs[..i], xs[i], f);
      assert xs[..i] + [xs[i]] == xs[..i + 1];
      CollectErrorSpreads(xs, i + 1, f);
    } else {
      assert xs[..i] == xs;
    }
  }

  /** One element whose call raises makes the whole run raise. */
  lemma CollectErrorAt<T, U>(xs: seq<T>, i: nat, f: T -> Result<Option<U>>)
    requires i < |xs| && f(xs[i]).Err?
    ensures CollectPresent(xs, f).Err?
  {
    CollectStep(xs, i, f);
    CollectErrorSpreads(xs, i + 1, f);
  }

  /** Every result is the result of one of the elements. */
  lemma {:induction false} CollectedFrom<T, U>(xs: seq<T>, f: T -> Result<Option<U>>)
    requires CollectPresent(xs, f).Ok?
    ensures forall k :: 0 <= k < |CollectPresent(xs, f).value| ==>
              exists i :: 0 <= i < |xs| && f(xs[i]) == Ok(Some(CollectPresent(xs, f).value[k]))
  {
    if xs != [] {
      var front, x := xs[..|xs| - 1], xs[|xs| - 1];
      CollectedFrom(front, f);
      var fr := CollectPresent(front, f).value;
      var s := CollectPresent(xs, f).value;
      forall k | 0 <= k < |s|
        ensures exists i :: 0 <= i < |xs| && f(xs[i]) == Ok(Some(s[k]))
      {
        if k < |fr| {
          var i :| 0 <= i < |front| && f(front[i]) == Ok(Some(fr[k]));
          assert xs[i] == front[i];
        } else {
          assert f(xs[|xs| - 1]) == Ok(Some(s[k]));
        }
      }
    }
  }

  /** With no element raising, the run succeeds and keeps every present result. */
  lemma {:induction false} CollectedAll<T, U>(xs: seq<T>, f: T -> Result<Option<U>>)
    requires forall i :: 0 <= i < |xs| ==> f(xs[i]).Ok?
    ensures CollectPresent(xs, f).Ok?
    ensures forall i :: 0 <= i < |xs| && f(xs[i]).value.Some? ==> f(xs[i]).value.value in CollectPresent(xs, f).value
  {
    if xs != [] {
      var front := xs[..|xs| - 1];
      assert forall i :: 0 <= i < |front| ==> front[i] == xs[i];
      CollectedAll(front, f);
      forall i | 0 <= i < |xs| && f(xs[i]).value.Some?
        ensures f(xs[i]).value.value in CollectPresent(xs, f).value
      {
        if i < |front| {
          assert xs[i] == front[i];
        }
      }
    }
  }

  /** Elements that give nothing give nothing together. */
  lemma {:induction false} CollectAbsent<T, U>(xs: seq<T>, f: T -> Result<Option<U>>)
    requires forall i :: 0 <= i < |xs| ==> f(xs[i]) == Ok(None)
    ensures CollectPresent(xs, f) == Ok([])
  {
    if xs != [] {
      var front := xs[..|xs| - 1];
      assert forall i :: 0 <= i < |front| ==> front[i] == xs[i];
      CollectAbsent(front, f);
    }
  }

  /** Applies `f` to each element in order and keeps the present results (a loop that appends
      only some of what it computes). */
  function FilterMap<T, U>(xs: seq<T>, f: T -> Option<U>): (ys: seq<U>)
    ensures |ys| <= |xs|
  {
    if xs == [] then []
    else
      var front := FilterMap(xs[..|xs| - 1], f);
      match f(xs[|xs| - 1])
      case None => front
      case Some(y) => front + [y]
  }

  lemma FilterMapSnoc<T, U>(xs: seq<T>, x: T, f: T -> Option<U>)
    ensures FilterMap(xs + [x], f) == FilterMap(xs, f) + (if f(x).Some? then [f(x).value] else [])
  {
    assert (xs + [x])[..|xs|] == xs;
  }

  /** One more element of a loop that appends what `f` keeps after a fixed prefix. */
  lemma FilterMapAfter<T, U>(before: seq<U>, xs: seq<T>, i: nat, f: T -> Option<U>)
    requires i < |xs|
    ensures before + FilterMap(xs[..i + 1], f) ==
              if f(xs[i]).Some? then before + FilterMap(xs[..i], f) + [f(xs[i]).value]
              else before + FilterMap(xs[..i], f)
  {
    assert xs[..i + 1][..i] == xs[..i];
    if f(xs[i]).Some? {
      AppendOne(before, FilterMap(xs[..i], f), f(xs[i]).value);
    }
  }

  lemma {:induction false} FilterMapAppend<T, U>(a: seq<T>, b: seq<T>, f: T -> Option<U>)
    ensures FilterMap(a + b, f) == FilterMap(a, f) + FilterMap(b, f)
    decreases |b|
  {
    if b == [] {
      assert a + b == a;
    } else {
      var b', x := b[..|b| - 1], b[|b| - 1];
      assert b == b' + [x];
      assert a + b == (a + b') + [x];
      FilterMapSnoc(b', x, f);
      FilterMapSnoc(a + b', x, f);
      FilterMapAppend(a, b', f);
    }
  }

  /** Nothing is kept that `f` did not produce from an element, and everything `f` produces is kept. */
  lemma {:induction false} FilterMapMembers<T, U>(xs: seq<T>, f: T -> Option<U>)
    ensures forall y :: y in FilterMap(xs, f) ==> exists x :: x in xs && f(x) == Some(y)
    ensures forall x :: x in xs && f(x).Some? ==> f(x).value in FilterMap(xs, f)
  {
    if xs != [] {
      var front, x := xs[..|xs| - 1], xs[|xs| - 1];
      assert xs == front + [x];
      FilterMapMembers(front, f);
      FilterMapSnoc(front, x, f);
    }
  }

  /** Appending an element to a concatenation appends it to the second part. */
  lemma AppendOne<T>(a: seq<T>, b: seq<T>, x: T)
    ensures a + b + [x] == a + (b + [x])
  {
    assert a + b + [x] == a + (b + [x]);
  }

  /** Appending two elements one after the other appends the pair. */
  lemma AppendPair<T>(a: seq<T>, b: seq<T>, x: T, y: T)
    ensures a + b + [x] + [y] == a + (b + [x, y])
  {
    assert a + b + [x] + [y] == a + (b + [x, y]);
  }

  /** The elements of a sequence of sequences, in order. */
  function Flatten<T>(xss: seq<seq<T>>): (xs: seq<T>)
  {
    if xss == [] then [] else Flatten(xss[..|xss| - 1]) + xss[|xss| - 1]
  }

  lemma FlattenSnoc<T>(xss: seq<seq<T>>, i: nat)
    requires i < |xss|
    ensures Flatten(xss[..i + 1]) == Flatten(xss[..i]) + xss[i]
  {
    assert xss[..i + 1][..i] == xss[..i];
  }
}

