/** The line scanner: a cursor over one segment that yields its
    newline-terminated lines one by one (`Reader` in src/main.cpp). */
module LineScanner {
  import opened Bytes

  /** The newline-terminated lines of `s`, in order and without their
      terminators. Bytes after the last newline form no line. */
  function Lines(s: seq<Byte>): seq<seq<Byte>>
    decreases |s|
  {
    match Find(s, '\n', 0)
    case Npos => []
    case At(k) => [s[..k]] + Lines(s[k + 1..])
  }

  /** No line holds a newline, and there is no line at all exactly when `s`
      holds no newline. */
  lemma {:induction false} LinesHaveNoNewline(s: seq<Byte>)
    ensures forall l :: l in Lines(s) ==> '\n' !in l
    ensures Lines(s) == [] <==> '\n' !in s
    decreases |s|
  {
    FindResult(s, '\n', 0);
    match Find(s, '\n', 0)
    case Npos =>
    case At(k) =>
      LinesHaveNoNewline(s[k + 1..]);
      assert s[..k][..] == s[..k];
      forall l | l in Lines(s) ensures '\n' !in l {
        if l != s[..k] {
          assert l in Lines(s[k + 1..]);
        }
      }
  }

  /** When `a` holds a newline, the first line of `a + b` is that of `a`. */
  lemma FirstLineOfAppend(a: seq<Byte>, b: seq<Byte>, k: nat)
    requires Find(a, '\n', 0) == At(k)
    ensures Lines(a + b) == [a[..k]] + Lines(a[k + 1..] + b)
    ensures Lines(a) == [a[..k]] + Lines(a[k + 1..])
  {
    FindInPrefix(a, b, '\n', 0);
    assert (a + b)[..k] == a[..k];
    assert (a + b)[k + 1..] == a[k + 1..] + b;
  }

  /** Cutting a byte string at a line boundary cuts its list of lines there:
      the lines of `a + b` are those of `a` followed by those of `b` whenever
      `a` is empty or ends with a newline (or `b` is empty). */
  lemma {:induction false} LinesAppend(a: seq<Byte>, b: seq<Byte>)
    requires a == [] || a[|a| - 1] == '\n' || b == []
    ensures Lines(a + b) == Lines(a) + Lines(b)
    decreases |a|
  {
    if b == [] {
      assert a + b == a;
    } else if a == [] {
      assert a + b == b;
    } else {
      FindSome(a, '\n', 0, |a| - 1);
      var k := Find(a, '\n', 0).index;
      FirstLineOfAppend(a, b, k);
      LinesAppend(a[k + 1..], b);
    }
  }

  /** A cursor over a view of the input; `pos` is the offset of the next
      unread byte. */
  class Reader {
    const data: seq<Byte>
    var pos: nat

    ghost predicate Valid()
      reads this
    {
      pos <= |data|
    }

    /** The bytes not read yet. */
    ghost function Remaining(): seq<Byte>
      reads this
      requires Valid()
    {
      data[pos..]
    }

    constructor (data: seq<Byte>)
      ensures Valid()
      ensures this.data == data && pos == 0
    {
      this.data := data;
      pos := 0;
    }

    /** `getline(line)`: when a newline is left, sets `line` to the bytes up to
        it and moves past it; otherwise reports false and changes nothing. */
    method Getline(line: seq<Byte>) returns (ok: bool, line': seq<Byte>)
      requires Valid()
      modifies this
      ensures Valid()
      ensures ok <==> '\n' in old(Remaining())
      ensures !ok ==> pos == old(pos) && line' == line
      ensures ok ==> old(pos) < pos && '\n' !in line' && data[old(pos)..pos] == line' + ['\n']
      ensures ok ==> Lines(old(Remaining())) == [line'] + Lines(Remaining())
      ensures !ok ==> Lines(old(Remaining())) == []
    {
      var nl := Find(data, '\n', pos);
      FindInSuffix(data, '\n', pos);
      FindResult(data[pos..], '\n', 0);
      if nl.Npos? {
        return false, line;
      }
      ghost var rest := data[pos..];
      ghost var k := nl.index - pos;
      assert rest[..k] == data[pos..nl.index];
      assert rest[k + 1..] == data[nl.index + 1..];
      line' := data[pos..nl.index];
      pos := nl.index + 1;
      ok := true;
    }
  }
}
