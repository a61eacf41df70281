/**
 * The output sink of the text pipeline: how buffered records are framed in an
 * output file, how the measured output size is computed, and when the file
 * index rotates.
 */
module Output {

  const START_TOKEN: string := "<|startoftext|>"
  const END_TOKEN: string := "<|endoftext|>"

  /** Number of buffered records that triggers a flush. */
  const BUFFER_SIZE: nat := 10

  /** Ceiling on the measured output size, in megabytes. */
  const MAX_FILE_SIZE_MB: nat := 1000

  /** The divisor `1024 * 1024` that turns a byte count into megabytes. */
  const BYTES_PER_MB: nat := 1024 * 1024

  /** One record as it is written: start token, text, end token, newline. */
  function Frame(r: string): string {
    START_TOKEN + r + END_TOKEN + "\n"
  }

  /** The text that writing the records `rs`, in order, puts in a file. */
  function Render(rs: seq<string>): string {
    if rs == [] then [] else Render(rs[..|rs| - 1]) + Frame(rs[|rs| - 1])
  }

  /** Writing one more record appends its frame. */
  lemma RenderSnoc(rs: seq<string>, r: string)
    ensures Render(rs + [r]) == Render(rs) + Frame(r)
  {
    assert (rs + [r])[..|rs|] == rs;
  }

  /** Appending one more frame to a file that holds `base` and then the
      rendering of `rs` leaves `base` and then the rendering of `rs + [r]`. */
  lemma AppendFrame(base: string, rs: seq<string>, r: string)
    ensures base + Render(rs) + Frame(r) == base + Render(rs + [r])
  {
    RenderSnoc(rs, r);
  }

  /** Writing `a` and then `b` to the same file gives the same text as writing
      `a + b` at once: appending is compatible with the framing. */
  lemma {:induction false} RenderConcat(a: seq<string>, b: seq<string>)
    ensures Render(a + b) == Render(a) + Render(b)
    decreases |b|
  {
    if b == [] {
      assert a + b == a;
    } else {
      var b', x := b[..|b| - 1], b[|b| - 1];
      assert (a + b)[..|a + b| - 1] == a + b';
      assert (a + b)[|a + b| - 1] == x;
      RenderConcat(a, b');
      calc {
        Render(a + b);
        Render(a + b') + Frame(x);
        (Render(a) + Render(b')) + Frame(x);
        Render(a) + (Render(b') + Frame(x));
        Render(a) + Render(b);
      }
    }
  }

  /** Every record adds its own length plus the fixed framing overhead. */
  lemma {:induction false} RenderLength(rs: seq<string>)
    ensures |Render(rs)| == SumLengths(rs) + |rs| * (|START_TOKEN| + |END_TOKEN| + 1)
    decreases |rs|
  {
    if rs != [] {
      RenderLength(rs[..|rs| - 1]);
    }
  }

  /** The total length of the records `rs`. */
  function SumLengths(rs: seq<string>): nat {
    if rs == [] then 0 else SumLengths(rs[..|rs| - 1]) + |rs[|rs| - 1]|
  }

  /** Total of the sizes, in bytes, of the files the size pattern matches. */
  function Sum(sizes: seq<nat>): nat {
    if sizes == [] then 0 else Sum(sizes[..|sizes| - 1]) + sizes[|sizes| - 1]
  }

  /** The measured output size in megabytes: the sizes of the matching files
      added up one by one, then divided by `1024 * 1024`. */
  method FileSizeInMb(sizes: seq<nat>) returns (mb: real)
    ensures mb == Sum(sizes) as real / BYTES_PER_MB as real
  {
    var total: nat := 0;
    for i := 0 to |sizes|
      invariant total == Sum(sizes[..i])
    {
      assert sizes[..i + 1][..i] == sizes[..i];
      total := total + sizes[i];
    }
    assert sizes[..|sizes|] == sizes;
    mb := total as real / BYTES_PER_MB as real;
  }

  /** True when the measured size has reached the ceiling. */
  predicate RotationDue(mb: real) {
    mb >= MAX_FILE_SIZE_MB as real
  }

  /** The megabyte comparison is an exact comparison of byte counts: dividing
      by a power of two loses nothing. */
  lemma RotationInBytes(total: nat)
    ensures RotationDue(total as real / BYTES_PER_MB as real)
        <==> total >= MAX_FILE_SIZE_MB * BYTES_PER_MB
  {
  }

  /** The file index after a flush that measured `mb` megabytes. */
  function NextIndex(index: nat, mb: real): nat {
    if RotationDue(mb) then index + 1 else index
  }

  // ---------------------------------------------------------------------------
  // records per file

  /** The records of file `i`; a file that was never opened holds none. */
  function RecordsOf(files: map<nat, seq<string>>, i: nat): seq<string> {
    if i in files then files[i] else []
  }

  /** The records of files `0 .. n-1`, file after file. */
  function AllRecords(files: map<nat, seq<string>>, n: nat): seq<string> {
    if n == 0 then [] else AllRecords(files, n - 1) + RecordsOf(files, n - 1)
  }

  /** Files below `n` with the same records give the same concatenation. */
  lemma {:induction false} AllRecordsAgree(f: map<nat, seq<string>>, g: map<nat, seq<string>>, n: nat)
    requires forall i :: 0 <= i < n ==> RecordsOf(f, i) == RecordsOf(g, i)
    ensures AllRecords(f, n) == AllRecords(g, n)
  {
    if n > 0 {
      AllRecordsAgree(f, g, n - 1);
    }
  }

  /** Appending records to the last file appends them to the whole output. */
  lemma AllRecordsAppendLast(files: map<nat, seq<string>>, last: nat, rs: seq<string>)
    ensures AllRecords(files[last := RecordsOf(files, last) + rs], last + 1)
         == AllRecords(files, last + 1) + rs
  {
    var g := files[last := RecordsOf(files, last) + rs];
    var before, current := AllRecords(files, last), RecordsOf(files, last);
    assert AllRecords(g, last) == before by {
      AllRecordsAgree(files, g, last);
    }
    assert RecordsOf(g, last) == current + rs;
    assert before + (current + rs) == (before + current) + rs;
  }
}
