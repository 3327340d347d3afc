/**
 * The graph readers of the benchmark (benchmark/src/utils/input_utils.py)
 * for the two formats of the DIMACS clique challenge: the choice of
 * reader, the binary format's bit unpacking and lower-triangle edge
 * reading, and the ASCII format's line handling.
 */
module InputUtils {
  import opened Wrappers
  import opened Graphs

  /** A byte of a binary graph file, as Python yields it when iterating over `bytes`. */
  type Byte = x: int | 0 <= x < 256

  /** The error a reader raises instead of returning a graph. */
  datatype Fault = IndexOutOfRange

  /** The two readers `read_graph` chooses between. */
  datatype Format = Binary | Ascii

  /** `read_graph`: the binary reader for names longer than six characters ending in ".col.b". */
  function ReaderFor(filename: string): Format
  {
    if |filename| > 6 && filename[|filename| - 6..] == ".col.b" then Binary else Ascii
  }

  /** The binary reader is chosen exactly for a non-empty stem followed by ".col.b". */
  lemma ReaderForSpec(filename: string)
    ensures ReaderFor(filename) == Binary <==> exists stem :: stem != [] && filename == stem + ".col.b"
  {
    if ReaderFor(filename) == Binary {
      var stem := filename[..|filename| - 6];
      assert filename == stem + ".col.b";
    }
    forall stem | stem != [] && filename == stem + ".col.b"
      ensures ReaderFor(filename) == Binary
    {
      assert filename[|filename| - 6..] == ".col.b";
    }
  }

  /** Python's `(x & 0b10000000) >> 7` on a non-negative integer: its bit of weight 128. */
  function Top(x: nat): int
  {
    x / 128 % 2
  }

  /** Python's `x << t` on a non-negative integer, which never overflows. */
  function Shifted(x: nat, t: nat): nat
  {
    if t == 0 then x else 2 * Shifted(x, t - 1)
  }

  /** The eight bits of a byte, most significant first: bit `t` is the top bit of the byte shifted `t` places. */
  function ByteBits(b: Byte): (r: seq<int>)
    ensures |r| == 8
  {
    seq(8, t requires 0 <= t < 8 => Top(Shifted(b, t)))
  }

  /** The bits of a byte string, each byte most significant bit first. */
  function Flatten(bytes: seq<Byte>): (r: seq<int>)
    ensures |r| == 8 * |bytes|
  {
    if bytes == [] then [] else ByteBits(bytes[0]) + Flatten(bytes[1..])
  }

  /**
   * The bits the reader yields from `bytes` when `j` bits of row `i` have
   * been yielded already. Row `r` has `r + 1` bits; each byte gives its bits
   * most significant first until the row is complete, the rest of that
   * byte is dropped and the next row starts at the next byte. The rows are
   * read until the bytes run out.
   */
  function RowsFrom(bytes: seq<Byte>, i: nat, j: nat): seq<int>
    requires j <= i
    decreases |bytes|
  {
    if bytes == [] then []
    else if i + 1 - j <= 8 then ByteBits(bytes[0])[..i + 1 - j] + RowsFrom(bytes[1..], i + 1, 0)
    else ByteBits(bytes[0]) + RowsFrom(bytes[1..], i, j + 8)
  }

  /** The fewest bytes that hold `need` bits, at least one. */
  function BytesFor(need: nat): (m: nat)
    ensures 1 <= m && need <= 8 * m && (m > 1 ==> 8 * (m - 1) < need)
  {
    if need <= 8 then 1 else 1 + BytesFor(need - 8)
  }

  /**
   * Read row by row: when the bytes suffice, the rest of row `i` is the
   * first `i + 1 - j` bits of the fewest bytes that hold them, and the next
   * row starts right after those bytes.
   */
  lemma {:induction false} RowFromBytes(bytes: seq<Byte>, i: nat, j: nat)
    requires j <= i && BytesFor(i + 1 - j) <= |bytes|
    ensures var m := BytesFor(i + 1 - j);
      RowsFrom(bytes, i, j) == Flatten(bytes[..m])[..i + 1 - j] + RowsFrom(bytes[m..], i + 1, 0)
    decreases i + 1 - j
  {
    var m := BytesFor(i + 1 - j);
    FlattenFront(bytes, m);
    if i + 1 - j > 8 {
      assert BytesFor(i + 1 - (j + 8)) == m - 1;
      RowFromBytes(bytes[1..], i, j + 8);
      LongRow(bytes, i, j, m);
    } else {
      assert m == 1;
    }
  }

  lemma LongRow(bytes: seq<Byte>, i: nat, j: nat, m: nat)
    requires j + 8 <= i && 2 <= m <= |bytes| && i + 1 - j <= 8 * m
    requires RowsFrom(bytes[1..], i, j + 8)
      == Flatten(bytes[1..][..m - 1])[..i + 1 - j - 8] + RowsFrom(bytes[1..][m - 1..], i + 1, 0)
    ensures RowsFrom(bytes, i, j)
      == (ByteBits(bytes[0]) + Flatten(bytes[1..][..m - 1]))[..i + 1 - j] + RowsFrom(bytes[m..], i + 1, 0)
  {
    assert bytes[1..][m - 1..] == bytes[m..];
    var b := ByteBits(bytes[0]);
    var f := Flatten(bytes[1..][..m - 1]);
    assert (b + f)[..i + 1 - j] == b + f[..i + 1 - j - 8];
  }

  lemma FlattenFront(bytes: seq<Byte>, m: nat)
    requires 1 <= m <= |bytes|
    ensures Flatten(bytes[..m]) == ByteBits(bytes[0]) + Flatten(bytes[1..][..m - 1])
  {
    assert bytes[..m][1..] == bytes[1..][..m - 1];
  }

  /** Every bit yielded is 0 or 1, and there are at most eight per byte. */
  lemma {:induction false} RowsFromBits(bytes: seq<Byte>, i: nat, j: nat)
    requires j <= i
    ensures |RowsFrom(bytes, i, j)| <= 8 * |bytes|
    ensures forall k :: 0 <= k < |RowsFrom(bytes, i, j)| ==> RowsFrom(bytes, i, j)[k] in {0, 1}
    decreases |bytes|
  {
    if bytes != [] {
      if i + 1 - j <= 8 {
        RowsFromBits(bytes[1..], i + 1, 0);
      } else {
        RowsFromBits(bytes[1..], i, j + 8);
      }
    }
  }

  /**
   * The inner loop over one byte at row `i` with `j` bits of it yielded:
   * it yields the byte's bits until the row is complete, moving to the
   * next row, or until the byte is used up.
   */
  method EmitByte(b: Byte, i: nat, j: nat) returns (out: seq<int>, i': nat, j': nat)
    requires j <= i
    ensures j' <= i'
    ensures i + 1 - j <= 8 ==> out == ByteBits(b)[..i + 1 - j] && i' == i + 1 && j' == 0
    ensures i + 1 - j > 8 ==> out == ByteBits(b) && i' == i && j' == j + 8
  {
    out := [];
    i', j' := i, j;
    var byte: nat := b;
    for t := 0 to 8
      invariant i' == i && j' == j + t && j + t <= i
      invariant byte == Shifted(b, t)
      invariant out == ByteBits(b)[..t]
    {
      assert ByteBits(b)[..t + 1] == ByteBits(b)[..t] + [Top(Shifted(b, t))];
      out := out + [Top(byte)];
      byte := 2 * byte;
      j' := j' + 1;
      if j' > i' {
        i' := i' + 1;
        j' := 0;
        return;
      }
    }
  }

  /**
   * `bytes_to_bits`: the rows of the lower triangle, row `r` as `r + 1`
   * bits read most significant bit first, each row from a fresh byte.
   */
  method BytesToBits(bytes: seq<Byte>) returns (bits: seq<int>)
    ensures bits == RowsFrom(bytes, 0, 0)
  {
    bits := [];
    var i: nat := 0;
    var j: nat := 0;
    for p := 0 to |bytes|
      invariant j <= i
      invariant bits + RowsFrom(bytes[p..], i, j) == RowsFrom(bytes, 0, 0)
    {
      assert bytes[p..][1..] == bytes[p + 1..];
      var out;
      out, i, j := EmitByte(bytes[p], i, j);
      bits := bits + out;
    }
    assert bytes[|bytes|..] == [];
  }

  /** Number of bits in the first `r` rows of the lower triangle. */
  function Tri(r: nat): nat
  {
    if r == 0 then 0 else Tri(r - 1) + r
  }

  /**
   * The (row, column) of bit `k` of the lower triangle read row by row:
   * the column advances and, once it passes the row, the next row starts
   * at column 0.
   */
  function Pos(k: nat): (int, int)
  {
    if k == 0 then (0, 0)
    else
      var (i, j) := Pos(k - 1);
      if i < j + 1 then (i + 1, 0) else (i, j + 1)
  }

  /** Bit `k` lies in the lower triangle, after the bits of the rows above it. */
  lemma {:induction false} PosSpec(k: nat)
    ensures 0 <= Pos(k).1 <= Pos(k).0
    ensures Tri(Pos(k).0) + Pos(k).1 == k
  {
    if k > 0 {
      PosSpec(k - 1);
    }
  }

  /** Different bits name different cells, so no pair is read twice. */
  lemma PosInjective(k: nat, l: nat)
    requires Pos(k) == Pos(l)
    ensures k == l
  {
    PosSpec(k);
    PosSpec(l);
  }

  /** The cells whose bits are 1. */
  function Ones(bits: seq<int>): set<(int, int)>
  {
    set k | 0 <= k < |bits| && bits[k] == 1 :: Pos(k)
  }

  /** The neighbours the edges `E` give vertex `v`, each edge counting in both directions. */
  function Neighbours(E: set<(int, int)>, v: int): set<int>
  {
    (set e | e in E && e.0 == v :: e.1) + (set e | e in E && e.1 == v :: e.0)
  }

  lemma OnesStep(bits: seq<int>, k: nat)
    requires k < |bits|
    ensures Ones(bits[..k + 1]) == Ones(bits[..k]) + (if bits[k] == 1 then {Pos(k)} else {})
  {
    var a := bits[..k + 1];
    var b := bits[..k];
    assert forall l :: 0 <= l < k ==> a[l] == b[l];
  }

  lemma NeighboursAdd(E: set<(int, int)>, i: int, j: int, v: int)
    ensures Neighbours(E + {(i, j)}, v)
         == Neighbours(E, v) + (if v == i then {j} else {}) + (if v == j then {i} else {})
  {
  }

  /** Every row of a cell that `bits` marks with a 1. */
  predicate RowsBelow(bits: seq<int>, n: int)
  {
    forall k :: 0 <= k < |bits| && bits[k] == 1 ==> Pos(k).0 < n
  }

  /**
   * `read_edges`: adds both directions of every edge the lower triangle in
   * `line` marks, in place. The source indexes the list with each marked
   * row, so a marked row outside the list raises an error; on success every
   * vertex has gained exactly the neighbours the marked cells give it.
   */
  method ReadEdges(line: seq<Byte>, adj: array<set<int>>) returns (r: Result<(), Fault>)
    modifies adj
    ensures r.Ok? <==> RowsBelow(RowsFrom(line, 0, 0), adj.Length)
    ensures r.Ok? ==> forall v :: 0 <= v < adj.Length ==>
      adj[v] == old(adj[v]) + Neighbours(Ones(RowsFrom(line, 0, 0)), v)
  {
    var adjMat := BytesToBits(line);
    ghost var start := adj[..];
    ghost var E: set<(int, int)> := {};
    var i, j := 0, 0;
    for k := 0 to |adjMat|
      invariant (i, j) == Pos(k)
      invariant RowsBelow(adjMat[..k], adj.Length)
      invariant E == Ones(adjMat[..k])
      invariant forall v :: 0 <= v < adj.Length ==> adj[v] == start[v] + Neighbours(E, v)
    {
      PosSpec(k);
      RowsBelowStep(adjMat, k, adj.Length);
      OnesStep(adjMat, k);
      if adjMat[k] == 1 {
        if i >= adj.Length {
          return Err(IndexOutOfRange);
        }
        AddEdge(adj, i, j);
        forall v | 0 <= v < adj.Length
          ensures adj[v] == start[v] + Neighbours(E + {(i, j)}, v)
        {
          NeighboursAdd(E, i, j, v);
        }
        E := E + {(i, j)};
      }
      j := j + 1;
      if i < j {
        i := i + 1;
        j := 0;
      }
    }
    assert adjMat[..|adjMat|] == adjMat;
    return Ok(());
  }

  lemma RowsBelowStep(bits: seq<int>, k: nat, n: int)
    requires k < |bits|
    ensures RowsBelow(bits[..k + 1], n) <==> RowsBelow(bits[..k], n) && (bits[k] == 1 ==> Pos(k).0 < n)
    ensures k + 1 == |bits| && RowsBelow(bits[..k + 1], n) ==> RowsBelow(bits, n)
  {
    assert bits[..k + 1][k] == bits[k];
    if k + 1 == |bits| {
      assert bits[..k + 1] == bits;
    }
  }

  /** One marked cell: `adj[i].add(j)` then `adj[j].add(i)`. */
  method AddEdge(adj: array<set<int>>, i: int, j: int)
    requires 0 <= j <= i < adj.Length
    modifies adj
    ensures forall v :: 0 <= v < adj.Length ==>
      adj[v] == old(adj[v]) + (if v == i then {j} else {}) + (if v == j then {i} else {})
  {
    adj[i] := adj[i] + {j};
    adj[j] := adj[j] + {i};
  }

  /** Adding edges within range keeps a graph well formed, symmetric and its adjacency sets growing. */
  lemma {:induction false} AddedEdgesKeepGraph(g: Graph, E: set<(int, int)>)
    requires GraphOk(g) && Symmetric(g)
    requires forall e :: e in E ==> 0 <= e.1 <= e.0 < |g|
    ensures var g' := seq(|g|, v requires 0 <= v < |g| => g[v] + Neighbours(E, v));
      GraphOk(g') && Symmetric(g') && forall v :: 0 <= v < |g| ==> g[v] <= g'[v]
  {
    var g' := seq(|g|, v requires 0 <= v < |g| => g[v] + Neighbours(E, v));
    forall v, w | 0 <= v < |g'| && w in g'[v]
      ensures 0 <= w < |g'| && v in g'[w]
    {
      if w !in g[v] {
        if e :| e in E && e.0 == v && e.1 == w {
          assert v in Neighbours(E, w);
        } else {
          var e :| e in E && e.1 == v && e.0 == w;
          assert v in Neighbours(E, w);
        }
      }
    }
  }

  /** A 1 on the diagonal of the triangle gives its vertex a self-loop. */
  lemma DiagonalGivesLoop(bits: seq<int>, k: nat)
    requires k < |bits| && bits[k] == 1 && Pos(k).0 == Pos(k).1
    ensures Pos(k).0 in Neighbours(Ones(bits), Pos(k).0)
  {
    assert Pos(k) in Ones(bits);
  }

  /** The cells a triangle marks lie below the diagonal, in rows below `n`. */
  lemma OnesInRange(bits: seq<int>, n: int)
    requires RowsBelow(bits, n)
    ensures forall e :: e in Ones(bits) ==> 0 <= e.1 <= e.0 < n
  {
    forall e | e in Ones(bits)
      ensures 0 <= e.1 <= e.0 < n
    {
      var k :| 0 <= k < |bits| && bits[k] == 1 && Pos(k) == e;
      PosSpec(k);
    }
  }

  /**
   * `read_graph_binary` after its preamble: `n` vertices with no
   * neighbours, then the edges of the triangle in `body`. The result is a
   * well-formed symmetric graph whose vertex `v` has exactly the
   * neighbours the marked cells give it, or the error a marked row
   * outside `n` raises.
   */
  method ReadGraphBinary(n: int, body: seq<Byte>) returns (r: Result<(int, Graph), Fault>)
    ensures r.Ok? <==> RowsBelow(RowsFrom(body, 0, 0), if n < 0 then 0 else n)
    ensures r.Ok? ==> r.value.0 == n && |r.value.1| == (if n < 0 then 0 else n)
    ensures r.Ok? ==> GraphOk(r.value.1) && Symmetric(r.value.1)
    ensures r.Ok? ==> forall v :: 0 <= v < |r.value.1| ==>
      r.value.1[v] == Neighbours(Ones(RowsFrom(body, 0, 0)), v)
  {
    var size := if n < 0 then 0 else n;
    var adj := new set<int>[size](_ => {});
    ghost var empty := adj[..];
    var ok := ReadEdges(body, adj);
    if ok.Err? {
      return Err(ok.error);
    }
    ghost var E := Ones(RowsFrom(body, 0, 0));
    OnesInRange(RowsFrom(body, 0, 0), size);
    AddedEdgesKeepGraph(empty, E);
    assert adj[..] == seq(|empty|, v requires 0 <= v < |empty| => empty[v] + Neighbours(E, v));
    return Ok((n, adj[..]));
  }

  /** A line of an ASCII graph file, as `read_graph_ascii` tells them apart by their first character. */
  datatype Line =
    | Edge(a: int, b: int)   // "e a b": an edge between the 1-based vertices a and b
    | Comment                // "c ...": ignored
    | Problem(n: int)        // "p name n nedges": n vertices, none of them adjacent yet
    | Other                  // any other line: ignored

  /** Python's `xs[i]` on a list of length `n`: a negative index counts from the end. */
  function PyIndex(n: int, i: int): (r: Option<int>)
    ensures r.Some? <==> -n <= i < n
    ensures r.Some? ==> 0 <= r.value < n && (r.value == i || r.value == i + n)
  {
    if 0 <= i < n then Some(i) else if -n <= i < 0 then Some(i + n) else None
  }

  /** The vertex count and adjacency list after one more line. */
  function ReadLine(state: (int, Graph), line: Line): Result<(int, Graph), Fault>
  {
    var (n, adj) := state;
    match line
    case Edge(a, b) =>
      var (i, j) := (a - 1, b - 1);
      if i == j then Ok(state)
      else
        (match (PyIndex(|adj|, i), PyIndex(|adj|, j))
         case (Some(x), Some(y)) =>
           var adj' := adj[x := adj[x] + {j}];
           Ok((n, adj'[y := adj'[y] + {i}]))
         case _ => Err(IndexOutOfRange))
    case Comment => Ok(state)
    case Problem(m) => Ok((m, seq(if m < 0 then 0 else m, _ => {})))
    case Other => Ok(state)
  }

  /** The lines read in order from no vertices; the first error ends the reading. */
  function ReadLines(lines: seq<Line>): Result<(int, Graph), Fault>
  {
    if lines == [] then Ok((0, []))
    else
      match ReadLines(lines[..|lines| - 1])
      case Ok(state) => ReadLine(state, lines[|lines| - 1])
      case Err(f) => Err(f)
  }

  /**
   * `read_graph_ascii` once the file is split into lines: an edge line
   * adds both directions of its edge unless it is a self-loop, a problem
   * line starts a fresh graph of its size.
   */
  method ReadGraphAscii(lines: seq<Line>) returns (r: Result<(int, Graph), Fault>)
    ensures r == ReadLines(lines)
  {
    var n := 0;
    var adj: Graph := [];
    for k := 0 to |lines|
      invariant ReadLines(lines[..k]) == Ok((n, adj))
    {
      assert lines[..k + 1][..k] == lines[..k];
      match lines[k]
      case Edge(a, b) =>
        var i, j := a - 1, b - 1;
        if i != j {
          var x := PyIndex(|adj|, i);
          if x.None? {
            ErrorEndsReading(lines, k + 1);
            return Err(IndexOutOfRange);
          }
          adj := adj[x.value := adj[x.value] + {j}];
          var y := PyIndex(|adj|, j);
          if y.None? {
            ErrorEndsReading(lines, k + 1);
            return Err(IndexOutOfRange);
          }
          adj := adj[y.value := adj[y.value] + {i}];
        }
      case Comment =>
      case Problem(m) =>
        n := m;
        adj := seq(if m < 0 then 0 else m, _ => {});
      case Other =>
    }
    assert lines[..|lines|] == lines;
    return Ok((n, adj));
  }

  /** Once a line raises, the lines after it change nothing. */
  lemma {:induction false} ErrorEndsReading(lines: seq<Line>, k: nat)
    requires k <= |lines| && ReadLines(lines[..k]).Err?
    ensures ReadLines(lines) == ReadLines(lines[..k])
    decreases |lines| - k
  {
    if k < |lines| {
      assert lines[..k + 1][..k] == lines[..k];
      ErrorEndsReading(lines, k + 1);
    } else {
      assert lines[..k] == lines;
    }
  }

  /** The vertex count of the last problem line, 0 before any. */
  function Declared(lines: seq<Line>): int
  {
    if lines == [] then 0
    else if lines[|lines| - 1].Problem? then lines[|lines| - 1].n
    else Declared(lines[..|lines| - 1])
  }

  /** Every edge line names two vertices among those the problem line before it declares. */
  predicate EdgesDeclared(lines: seq<Line>)
  {
    forall k :: 0 <= k < |lines| && lines[k].Edge? ==>
      1 <= lines[k].a <= Declared(lines[..k]) && 1 <= lines[k].b <= Declared(lines[..k])
  }

  /** A well-formed symmetric loopless graph stays so after a line whose edge lies within it. */
  lemma ReadLineKeepsGraph(state: (int, Graph), line: Line)
    requires GraphOk(state.1) && Symmetric(state.1) && Loopless(state.1)
    requires line.Edge? ==> 1 <= line.a <= |state.1| && 1 <= line.b <= |state.1|
    ensures ReadLine(state, line).Ok?
    ensures var (n, g) := ReadLine(state, line).value;
      GraphOk(g) && Symmetric(g) && Loopless(g) && (line.Problem? ==> n == line.n)
      && (!line.Problem? ==> n == state.0 && |g| == |state.1|)
  {
  }

  /**
   * A file whose edges all name declared vertices reads without error as a
   * well-formed, symmetric, loopless graph on the vertices its last problem
   * line declares.
   */
  lemma {:induction false} ReadLinesGraph(lines: seq<Line>)
    requires EdgesDeclared(lines)
    ensures ReadLines(lines).Ok?
    ensures var (n, g) := ReadLines(lines).value;
      n == Declared(lines) && |g| == (if n < 0 then 0 else n)
      && GraphOk(g) && Symmetric(g) && Loopless(g)
  {
    if lines != [] {
      var init := lines[..|lines| - 1];
      assert EdgesDeclared(init) by {
        forall k | 0 <= k < |init| && init[k].Edge?
          ensures 1 <= init[k].a <= Declared(init[..k]) && 1 <= init[k].b <= Declared(init[..k])
        {
          assert init[..k] == lines[..k];
        }
      }
      ReadLinesGraph(init);
      assert lines[..|lines| - 1] == init;
      ReadLineKeepsGraph(ReadLines(init).value, lines[|lines| - 1]);
    }
  }
}
