/** Failure-carrying results shared by every decoder and loader of the importer.

    The importer signals every error by raising a Python exception that aborts
    the current file (and, through `load_unit`, the whole unit).  Each `Fault`
    names the exception raised at that point. */
module Base {

  datatype Option<+T> = None | Some(value: T)

  datatype Fault =
    | Diverges          // read_str with no zero byte left: the loop never ends
    | Truncated         // struct.error: fewer bytes left than the format needs
    | BadUtf8           // UnicodeDecodeError while decoding a string
    | NotOneValue       // AssertionError in read_one
    | BadMagic          // AssertionError on the magic string
    | MissingKey        // KeyError on a dict or a Blender collection
    | DivisionByZero    // ZeroDivisionError
    | NotTriangles      // AssertionError: the vertex count is not a multiple of 3
    | UnpackMismatch    // ValueError: `u, v = ...` on a tuple that is not a pair
    | NotANumber        // ValueError: int() of a NaN
    | Infinite          // OverflowError: int() of an infinity
    | IndexOutOfRange   // IndexError
    | BadVectorSize     // ValueError: a 4x4 matrix times a vector of neither 3 nor 4 items
    | BadInteger        // ValueError: int() of a string that is no integer literal
    | NoneValue         // TypeError: None used where a path or an element is needed
    | StopParsing       // StopParsing: an XML document with the wrong root tag

  /** A value, or the fault that stopped the computation; usable with `:-`. */
  datatype Result<+T> = Ok(value: T) | Err(fault: Fault) {

    predicate IsFailure() {
      Err?
    }

    function PropagateFailure<U>(): Result<U>
      requires Err?
    {
      Err(fault)
    }

    function Extract(): T
      requires Ok?
    {
      value
    }
  }

  // Sequence facts proved once for every element type, so that callers
  // over sequences of records do not re-derive them.

  lemma {:induction false} AppendAssoc<T>(a: seq<T>, b: seq<T>, c: seq<T>)
    ensures (a + b) + c == a + (b + c)
  {
  }

  lemma {:induction false} AppendCons<T>(a: seq<T>, b: seq<T>)
    requires |a| > 0
    ensures (a + b)[0] == a[0] && (a + b)[1..] == a[1..] + b
  {
  }

  lemma {:induction false} AppendEmpty<T>(a: seq<T>, b: seq<T>)
    requires |a| == 0
    ensures a + b == b
  {
  }

  lemma {:induction false} PrefixOfAppend<T>(a: seq<T>, b: seq<T>)
    ensures (a + b)[..|a|] == a && (a + b)[|a|..] == b
  {
  }

  lemma {:induction false} PrefixOfPrefix<T>(s: seq<T>, m: nat, n: nat)
    requires n <= m <= |s|
    ensures s[..m][..n] == s[..n]
  {
  }

  lemma {:induction false} HeadTail<T>(s: seq<T>)
    requires |s| > 0
    ensures [s[0]] + s[1..] == s
  {
  }

  lemma {:induction false} SuffixOfExtension<T>(b: seq<T>, c: seq<T>, n: nat)
    requires n <= |b| <= |c| && c[..|b|] == b
    ensures c[n..] == b[n..] + c[|b|..]
  {
  }

  lemma {:induction false} AppendTwo<T>(a: seq<T>, x: T, y: T)
    ensures |a + [x] + [y]| == |a| + 2 && (a + [x] + [y])[|a| + 1] == y
    ensures forall i :: 0 <= i < |a| ==> (a + [x] + [y])[i] == a[i]
  {
  }

  lemma {:induction false} InitLast<T>(s: seq<T>)
    requires |s| > 0
    ensures s[..|s| - 1] + [s[|s| - 1]] == s
  {
  }

  lemma {:induction false} ConsIndex<T>(x: T, s: seq<T>, i: nat)
    requires 0 < i <= |s|
    ensures ([x] + s)[i] == s[i - 1]
  {
  }

  lemma {:induction false} PairAppend<T>(x: T, y: T)
    ensures [x] + [y] == [x, y] && [x] + [] == [x]
  {
  }

}
