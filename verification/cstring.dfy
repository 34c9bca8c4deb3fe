/** The copying and length functions of the C library, over one array of bytes with offsets
    for pointers. */
module CString {
  type Byte = x: int | 0 <= x < 256

  /** n bytes at src copied to dest as if through a buffer of their own. */
  function Moved(m: seq<Byte>, dest: nat, src: nat, n: nat): (r: seq<Byte>)
    requires src + n <= |m| && dest + n <= |m|
    ensures |r| == |m|
    ensures forall i | 0 <= i < |m| :: r[i] == if dest <= i < dest + n then m[src + (i - dest)] else m[i]
  {
    m[..dest] + m[src..src + n] + m[dest + n..]
  }

  /** The same bytes copied one at a time, lowest first. */
  function CopiedForward(m: seq<Byte>, dest: nat, src: nat, n: nat): (r: seq<Byte>)
    requires src + n <= |m| && dest + n <= |m|
    ensures |r| == |m|
  {
    if n == 0 then m
    else
      var p := CopiedForward(m, dest, src, n - 1);
      p[dest + n - 1 := p[src + n - 1]]
  }

  /** When the destination begins inside or behind the source, every byte written is the one
      that the result holds the distance of the two before it. */
  lemma {:induction false} ForwardRepeats(m: seq<Byte>, dest: nat, src: nat, n: nat, j: nat)
    requires src < dest && src + n <= |m| && dest + n <= |m| && j < |m|
    ensures var r := CopiedForward(m, dest, src, n);
            r[j] == if dest <= j < dest + n then r[j - (dest - src)] else m[j]
  {
    if n > 0 { ForwardRepeats(m, dest, src, n - 1, j); }
  }

  lemma {:induction false} ForwardDown(m: seq<Byte>, dest: nat, src: nat, n: nat)
    requires dest <= src && src + n <= |m| && dest + n <= |m|
    ensures CopiedForward(m, dest, src, n) == Moved(m, dest, src, n)
  {
    if n > 0 { ForwardDown(m, dest, src, n - 1); }
  }

  /** The source repeats after d bytes. */
  ghost predicate Periodic(m: seq<Byte>, src: nat, n: nat, d: nat)
    requires src + n <= |m|
  {
    forall k | src + d <= k < src + n :: m[k] == m[k - d]
  }

  lemma {:induction false} PeriodicCopies(m: seq<Byte>, dest: nat, src: nat, n: nat, j: nat)
    requires src < dest && src + n <= |m| && dest <= j < dest + n <= |m| && Periodic(m, src, n, dest - src)
    ensures CopiedForward(m, dest, src, n)[j] == m[j - (dest - src)]
  {
    hide CopiedForward;
    var d := dest - src;
    ForwardRepeats(m, dest, src, n, j);
    ForwardRepeats(m, dest, src, n, j - d);
    if j - d >= dest { PeriodicCopies(m, dest, src, n, j - d); }
  }

  /** A forward copy is a move iff the destination does not begin inside the source, or the
      source happens to repeat with the distance of the two. */
  lemma ForwardIsMoveIff(m: seq<Byte>, dest: nat, src: nat, n: nat)
    requires src + n <= |m| && dest + n <= |m|
    ensures CopiedForward(m, dest, src, n) == Moved(m, dest, src, n)
            <==> dest <= src || Periodic(m, src, n, dest - src)
  {
    hide CopiedForward;
    if dest <= src {
      ForwardDown(m, dest, src, n);
    } else {
      var r, t, d := CopiedForward(m, dest, src, n), Moved(m, dest, src, n), dest - src;
      if r == t {
        forall k | src + d <= k < src + n ensures m[k] == m[k - d] {
          ForwardRepeats(m, dest, src, n, k + d);
        }
      }
      if Periodic(m, src, n, d) {
        forall j | 0 <= j < |m| ensures r[j] == t[j] {
          if dest <= j < dest + n {
            PeriodicCopies(m, dest, src, n, j);
          } else {
            ForwardRepeats(m, dest, src, n, j);
          }
        }
      }
    }
  }

  method Memcpy(mem: array<Byte>, dest: nat, src: nat, n: nat)
    requires src + n <= mem.Length && dest + n <= mem.Length
    modifies mem
    ensures mem[..] == CopiedForward(old(mem[..]), dest, src, n)
  {
    var i := 0;
    while i < n
      invariant i <= n && mem[..] == CopiedForward(old(mem[..]), dest, src, i)
    {
      mem[dest + i] := mem[src + i];
      i := i + 1;
    }
  }

  /** The loop from the lowest byte up. */
  method MoveUpward(mem: array<Byte>, dest: nat, src: nat, n: nat)
    requires dest < src && src + n <= mem.Length
    modifies mem
    ensures mem[..] == Moved(old(mem[..]), dest, src, n)
  {
    ghost var m, t := mem[..], Moved(mem[..], dest, src, n);
    var destP, srcP, left := dest, src, n;
    while left > 0
      invariant 0 <= left <= n && destP == dest + (n - left) && srcP == src + (n - left)
      invariant forall i | 0 <= i < |m| :: mem[i] == if dest <= i < destP then t[i] else m[i]
    {
      assert t[destP] == m[srcP];
      mem[destP] := mem[srcP];
      destP, srcP, left := destP + 1, srcP + 1, left - 1;
    }
    assert mem[..] == t;
  }

  /** The loop from the highest byte down. */
  method MoveDownward(mem: array<Byte>, dest: nat, src: nat, n: nat)
    requires src <= dest && dest + n <= mem.Length
    modifies mem
    ensures mem[..] == Moved(old(mem[..]), dest, src, n)
  {
    ghost var m, t := mem[..], Moved(mem[..], dest, src, n);
    var destP, srcP, left := dest + n, src + n, n;
    while left > 0
      invariant 0 <= left <= n && destP == dest + left && srcP == src + left
      invariant forall i | 0 <= i < |m| :: mem[i] == if destP <= i < dest + n then t[i] else m[i]
    {
      destP, srcP, left := destP - 1, srcP - 1, left - 1;
      assert t[destP] == m[srcP];
      mem[destP] := mem[srcP];
    }
    assert mem[..] == t;
  }

  /** Copies upward or downward so that no byte is overwritten before it is read. */
  method Memmove(mem: array<Byte>, dest: nat, src: nat, n: nat)
    requires src + n <= mem.Length && dest + n <= mem.Length
    modifies mem
    ensures mem[..] == Moved(old(mem[..]), dest, src, n)
  {
    if dest < src {
      MoveUpward(mem, dest, src, n);
    } else {
      MoveDownward(mem, dest, src, n);
    }
  }

  method Memset(mem: array<Byte>, p: nat, c: Byte, n: nat)
    requires p + n <= mem.Length
    modifies mem
    ensures mem[..] == old(mem[..p]) + seq(n, _ => c) + old(mem[p + n..])
  {
    ghost var m := mem[..];
    var i := 0;
    while i < n
      invariant i <= n
      invariant forall j | 0 <= j < |m| :: mem[j] == if p <= j < p + i then c else m[j]
    {
      mem[p + i] := c;
      i := i + 1;
    }
  }

  /** The distance to the first NUL. */
  method Strlen(mem: array<Byte>, p: nat) returns (n: nat)
    requires exists i :: p <= i < mem.Length && mem[i] == 0
    ensures p + n < mem.Length && mem[p + n] == 0 && forall i | p <= i < p + n :: mem[i] != 0
  {
    ghost var z :| p <= z < mem.Length && mem[z] == 0;
    n := 0;
    while mem[p + n] != 0
      invariant p + n <= z && forall i | p <= i < p + n :: mem[i] != 0
      decreases z - n
    {
      n := n + 1;
    }
  }
}
