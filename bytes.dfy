/** Bytes of the input file and the two `std::string_view` operations the fast
    path relies on: `find` of a single character and slicing. */
module Bytes {

  /** One byte of the memory-mapped file. The file is read as raw bytes, so a
      character of the model never exceeds 255. */
  type Byte = c: char | c as int < 256 witness '\0'

  /** The value of a `char` once promoted to `int`: `char` is signed on the
      x86-64 targets the program is built for, so bytes 0x80..0xFF are negative. */
  function SignedValue(c: Byte): (v: int)
    ensures -128 <= v < 128
    ensures v == c as int || v == c as int - 256
  {
    if c as int < 128 then c as int else c as int - 256
  }

  /** The result of `string_view::find`: an index, or `npos`. */
  datatype Found = Npos | At(index: nat)

  /** `s.find(c, from)`: the first index at or after `from` holding `c`. */
  function Find(s: seq<Byte>, c: Byte, from: nat): (r: Found)
    ensures r.At? ==> from <= r.index < |s| && s[r.index] == c
    decreases |s| - from
  {
    if from >= |s| then Npos
    else if s[from] == c then At(from)
    else Find(s, c, from + 1)
  }

  /** `find(...) + 1` in `size_t` arithmetic: `npos + 1` wraps around to 0. */
  function AfterFound(f: Found): nat
  {
    match f
    case Npos => 0
    case At(k) => k + 1
  }

  /** The rest of what `find` promises: an index it returns is the first
      one holding `c`, and `npos` means there is none. */
  lemma {:induction false} FindResult(s: seq<Byte>, c: Byte, from: nat)
    ensures Find(s, c, from).At? ==> forall j :: from <= j < Find(s, c, from).index ==> s[j] != c
    ensures Find(s, c, from).Npos? ==> forall j :: from <= j < |s| ==> s[j] != c
    decreases |s| - from
  {
    if from < |s| && s[from] != c {
      FindResult(s, c, from + 1);
    }
  }

  /** A `c` standing at `i` is found, at `i` or before. */
  lemma {:induction false} FindSome(s: seq<Byte>, c: Byte, from: nat, i: nat)
    requires from <= i < |s| && s[i] == c
    ensures Find(s, c, from).At? && Find(s, c, from).index <= i
    decreases |s| - from
  {
    if s[from] != c {
      FindSome(s, c, from + 1, i);
    }
  }

  /** That characterisation pins the result down. */
  lemma {:induction false} FindIs(s: seq<Byte>, c: Byte, from: nat, r: Found)
    requires r.At? ==> from <= r.index < |s| && s[r.index] == c
    requires r.At? ==> forall j :: from <= j < r.index ==> s[j] != c
    requires r.Npos? ==> forall j :: from <= j < |s| ==> s[j] != c
    ensures Find(s, c, from) == r
    decreases |s| - from
  {
    if from < |s| && s[from] != c {
      FindIs(s, c, from + 1, r);
    }
  }

  /** Searching `s` from `p` is searching the suffix `s[p..]` from its
      start, with the index shifted by `p`. */
  lemma FindInSuffix(s: seq<Byte>, c: Byte, p: nat)
    requires p <= |s|
    ensures Find(s, c, p) == match Find(s[p..], c, 0) case Npos => Npos case At(k) => At(k + p)
  {
    var f := Find(s[p..], c, 0);
    FindResult(s[p..], c, 0);
    var r := match f case Npos => Npos case At(k) => At(k + p);
    if r.At? {
      forall j | p <= j < r.index ensures s[j] != c {
        assert s[j] == s[p..][j - p];
      }
      assert s[r.index] == s[p..][f.index];
    } else {
      forall j | p <= j < |s| ensures s[j] != c {
        assert s[j] == s[p..][j - p];
      }
    }
    FindIs(s, c, p, r);
  }

  /** A character found in `a` is found at the same place in `a + b`. */
  lemma FindInPrefix(a: seq<Byte>, b: seq<Byte>, c: Byte, from: nat)
    requires Find(a, c, from).At?
    ensures Find(a + b, c, from) == Find(a, c, from)
  {
    var f := Find(a, c, from);
    FindResult(a, c, from);
    forall j | from <= j < f.index ensures (a + b)[j] != c {
      assert (a + b)[j] == a[j];
    }
    FindIs(a + b, c, from, f);
  }
}
