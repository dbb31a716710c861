/** Rewriting one MPTCP option (RFC 8684) in a packet on its way out, with the TCP checksum made good again. */
module Nfq {
  import opened Bits
  import opened Common
  import opened Checksum

  // ----- The checksum -----

  /** Two rounds of folding, then the complement. */
  function FoldTwice(x: nat): nat {
    var once := x / 0x10000 + x % 0x10000;
    var twice := once + once / 0x10000;
    0xffff - twice % 0x10000
  }

  /** For any 32-bit sum two rounds do what folding until done does. */
  lemma {:induction false} FoldTwiceIsDigest(x: nat)
    requires x < WRAP
    ensures FoldTwice(x) == Digest(x)
  {
    CanonFold(x);
    var once := x / 0x10000 + x % 0x10000;
    if once > 0xffff {
      CanonUnique(once, 1, once - 0xffff);
    }
  }

  method CsumBuf(sum: nat, buf: array<Byte>, from: nat, size: nat) returns (d: nat)
    requires from + size <= buf.Length && sum < WRAP
    ensures d == Digest(Mod32(sum + Sum16(buf[from..from + size])))
  {
    hide Mod32, Digest;
    var acc: nat, i, left := sum, from, size;
    while left > 1
      invariant 0 <= left && i + left == from + size && acc < WRAP
      invariant Mod32(acc + Sum16(buf[i..from + size])) == Mod32(sum + Sum16(buf[from..from + size]))
    {
      var word := buf[i] as int + 256 * buf[i + 1] as int;
      assert buf[i..from + size][2..] == buf[i + 2..from + size];
      WrapAdd(acc + word, Sum16(buf[i + 2..from + size]));
      acc := Mod32(acc + word);
      i, left := i + 2, left - 2;
    }
    if left == 1 {
      acc := Mod32(acc + buf[i]);
    }
    FoldTwiceIsDigest(acc);
    d := FoldTwice(acc);
  }

  // ----- Packets -----

  function IpLen(p: seq<Byte>): nat
    requires |p| > 0
  {
    p[0] % 16 * 4
  }

  /** A packet of the host's own stack: whole, and TCP with its headers inside it. */
  predicate WellFormed(p: seq<Byte>) {
    && 40 <= |p| < 0x10000 && p[9] == 6 && p[2] as int * 256 + p[3] as int == |p|
    && 20 <= IpLen(p) && IpLen(p) + 20 <= |p| && IpLen(p) + TcpLen(p) <= |p|
  }

  function TcpLen(p: seq<Byte>): nat
    requires |p| > 0 && IpLen(p) + 20 <= |p|
  {
    p[IpLen(p) + 12] / 16 * 4
  }

  /** The pseudo-header of section 3.1 of RFC 9293. */
  function Pseudo(p: seq<Byte>): seq<Byte>
    requires WellFormed(p)
  {
    p[12..20] + [0, 6] + Big16(|p| - IpLen(p))
  }

  /** What the receiver checks: pseudo-header and segment sum to all ones. */
  predicate ChecksumOk(p: seq<Byte>)
    requires WellFormed(p)
  {
    Canon(Sum16(Pseudo(p) + p[IpLen(p)..])) == 0xffff
  }

  method PseudoSum(p: array<Byte>) returns (sum: nat)
    requires WellFormed(p[..])
    ensures sum == Sum16(Pseudo(p[..]))
  {
    hide Sum16, Pseudo;
    var len := p[2] as int * 256 + p[3] as int - p[0] % 16 * 4;
    sum := p[14] as int + 256 * p[15] as int;
    sum := sum + (p[12] as int + 256 * p[13] as int);
    sum := sum + (p[18] as int + 256 * p[19] as int);
    sum := sum + (p[16] as int + 256 * p[17] as int);
    sum := sum + 256 * p[9] as int;
    sum := sum + (256 * (len % 256) + len / 256);
    PseudoWords(p[..]);
  }

  lemma {:induction false} PseudoWords(p: seq<Byte>)
    requires WellFormed(p)
    ensures var len := |p| - IpLen(p);
      Sum16(Pseudo(p)) == p[12] as int + p[14] as int + p[16] as int + p[18] as int + len / 256
      + 256 * (p[13] as int + p[15] as int + p[17] as int + p[19] as int + 6 + len % 256)
  {
    hide Sum16;
    SixWords(Pseudo(p));
  }

  lemma {:induction false} SixWords(h: seq<Byte>)
    requires |h| == 12
    ensures Sum16(h) == h[0] as int + h[2] as int + h[4] as int + h[6] as int + h[8] as int + h[10] as int
      + 256 * (h[1] as int + h[3] as int + h[5] as int + h[7] as int + h[9] as int + h[11] as int)
  {
    assert h[2..][2..] == h[4..] && h[4..][2..] == h[6..] && h[6..][2..] == h[8..] && h[8..][2..] == h[10..]
           && h[10..][2..] == [];
    assert Sum16(h[10..]) == h[10] as int + 256 * h[11] as int;
    assert Sum16(h[8..]) == h[8] as int + 256 * h[9] as int + Sum16(h[10..]);
    assert Sum16(h[6..]) == h[6] as int + 256 * h[7] as int + Sum16(h[8..]);
    assert Sum16(h[4..]) == h[4] as int + 256 * h[5] as int + Sum16(h[6..]);
    assert Sum16(h[2..]) == h[2] as int + 256 * h[3] as int + Sum16(h[4..]);
  }

  /** The checksum field is zeroed, and the sum taken and stored. */
  method ComputeChecksum(p: array<Byte>)
    requires WellFormed(p[..])
    modifies p
    ensures WellFormed(p[..]) && ChecksumOk(p[..])
    ensures forall i :: 0 <= i < p.Length && i != IpLen(old(p[..])) + 16 && i != IpLen(old(p[..])) + 17 ==>
            p[i] == old(p[i])
  {
    hide Sum16, Digest, Mod32, Canon;
    var at, field := p[0] % 16 * 4, p[0] % 16 * 4 + 16;
    var sum := PseudoSum(p);
    p[field], p[field + 1] := 0, 0;
    ghost var zeroed := p[..];
    assert Pseudo(zeroed) == Pseudo(old(p[..]));
    SixWords(Pseudo(zeroed));
    assert p[at..at + (p.Length - at)] == zeroed[at..];
    var d := CsumBuf(sum, p, at, p.Length - at);
    p[field], p[field + 1] := d % 256, d / 256;
    StoredChecks(zeroed, p[..], d);
  }

  lemma {:induction false} StoredChecks(zeroed: seq<Byte>, p: seq<Byte>, d: nat)
    requires WellFormed(zeroed) && zeroed[IpLen(zeroed) + 16] == zeroed[IpLen(zeroed) + 17] == 0
    requires d == Digest(Mod32(Sum16(Pseudo(zeroed)) + Sum16(zeroed[IpLen(zeroed)..])))
             && p == Stored(zeroed, IpLen(zeroed) + 16, d)
    ensures WellFormed(p) && ChecksumOk(p)
  {
    hide Sum16, Digest, Canon;
    var at := IpLen(zeroed);
    var seg := zeroed[at..];
    SumBound(seg);
    SumBound(Pseudo(zeroed));
    SumConcat(Pseudo(zeroed), seg);
    PseudoChecks(Pseudo(zeroed), seg, 16);
    assert p[at..] == Stored(seg, 16, d);
    assert Pseudo(p) == Pseudo(zeroed);
  }

  // ----- TCP options -----

  /** What a walk over the options looks for among the MPTCP ones. */
  datatype Want = Join(len: Byte) | Subtype(subtype: Byte) | Dss

  predicate Wanted(w: Want, len: Byte, third: Byte) {
    match w
    case Join(n) => len == n && third / 16 == 1
    case Subtype(t) => len >= 3 && third / 16 == t
    case Dss => len >= 4 && third / 16 == 2
  }

  /** The first wanted option from i on, going from one option to the next. */
  function Find(opts: seq<Byte>, i: nat, w: Want): Option<nat>
    requires w.Join? ==> w.len >= 3
    decreases |opts| - i
  {
    if i >= |opts| || opts[i] == 0 then None
    else if opts[i] == 1 then Find(opts, i + 1, w)
    else if i + 1 >= |opts| || opts[i + 1] < 2 || i + opts[i + 1] > |opts| then None
    else if opts[i] == 30 && opts[i + 1] >= 3 && Wanted(w, opts[i + 1], opts[i + 2]) then Some(i)
    else Find(opts, i + opts[i + 1], w)
  }

  /** Option boundaries are where a walk from the first option stops over. */
  predicate Boundary(opts: seq<Byte>, i: nat, at: nat)
    decreases |opts| - i
  {
    if at <= i then at == i
    else if i >= |opts| || opts[i] == 0 then false
    else if opts[i] == 1 then Boundary(opts, i + 1, at)
    else if i + 1 >= |opts| || opts[i + 1] < 2 || i + opts[i + 1] > |opts| then false
    else Boundary(opts, i + opts[i + 1], at)
  }

  /** What is found is an MPTCP option as wanted, whole within the options, at an option boundary. */
  lemma {:induction false} Found(opts: seq<Byte>, i: nat, w: Want)
    requires (w.Join? ==> w.len >= 3) && Find(opts, i, w).Some?
    ensures var at := Find(opts, i, w).value;
      && i <= at && at + 2 < |opts| && opts[at] == 30 && at + opts[at + 1] <= |opts|
      && Wanted(w, opts[at + 1], opts[at + 2]) && Boundary(opts, i, at)
    decreases |opts| - i
  {
    if opts[i] == 1 {
      Found(opts, i + 1, w);
    } else if !(opts[i] == 30 && opts[i + 1] >= 3 && Wanted(w, opts[i + 1], opts[i + 2])) {
      Found(opts, i + opts[i + 1], w);
    }
  }

  /** The options of a packet; none when the data offset is too small. */
  function Opts(p: seq<Byte>): seq<Byte>
    requires WellFormed(p)
  {
    if TcpLen(p) <= 20 then [] else p[IpLen(p) + 20..IpLen(p) + TcpLen(p)]
  }

  method FindOption(p: array<Byte>, w: Want) returns (r: Option<nat>)
    requires WellFormed(p[..]) && (w.Join? ==> w.len >= 3)
    ensures r == Find(Opts(p[..]), 0, w)
  {
    hide Find;
    var start := p[0] % 16 * 4 + 20;
    var len := p[start - 8] as int / 16 * 4 - 20;
    r := WalkOptions(p, start, len, w, Opts(p[..]));
  }

  method WalkOptions(p: array<Byte>, start: nat, len: int, w: Want, ghost opts: seq<Byte>) returns (r: Option<nat>)
    requires |opts| == (if len < 0 then 0 else len) && start + |opts| <= p.Length && opts == p[start..start + |opts|]
    requires w.Join? ==> w.len >= 3
    ensures r == Find(opts, 0, w)
  {
    var i := 0;
    while i < len
      invariant 0 <= i && Find(opts, i, w) == Find(opts, 0, w)
    {
      var kind := p[start + i];
      if kind == 0 {
        break;
      }
      if kind == 1 {
        i := i + 1;
        continue;
      }
      if i + 1 >= len {
        break;
      }
      var n := p[start + i + 1];
      if n < 2 || i + n > len {
        break;
      }
      if kind == 30 && n >= 3 && Wanted(w, n, p[start + i + 2]) {
        return Some(i);
      }
      i := i + n;
    }
    return None;
  }

  // ----- The mutations -----

  function Flip(b: Byte): Byte { if b % 2 == 0 then b + 1 else b - 1 }
  function FlipTop(b: Byte): Byte { if b < 128 then b + 128 else b - 128 }

  /** The big-endian 32-bit field at k, plus delta. */
  function Shift32(opt: seq<Byte>, k: nat, delta: int): (r: seq<Byte>)
    requires k + 4 <= |opt|
    ensures |r| == |opt|
  {
    var v := ((opt[k] as int * 256 + opt[k + 1] as int) * 256 + opt[k + 2] as int) * 256 + opt[k + 3] as int;
    var w := (v + delta) % WRAP;
    opt[k := w / 0x1000000 % 256][k + 1 := w / 0x10000 % 256][k + 2 := w / 256 % 256][k + 3 := w % 256]
  }

  function MutHmac(opt: seq<Byte>, mut: nat): (r: seq<Byte>)
    requires |opt| == 24
    ensures |r| == 24 && r[0] == opt[0]
  {
    match mut
    case 1 => opt[..4] + seq(20, i => 0)
    case 2 => opt[4 := Flip(opt[4])]
    case 3 => opt[1 := 12][..12] + seq(12, i => 1)
    case 4 => opt[..4] + opt[14..] + opt[4..14]
    case _ => opt
  }

  function MutMap(opt: seq<Byte>, mut: nat): (r: seq<Byte>)
    requires |opt| >= 4
    ensures |r| == |opt| && r[0] == opt[0]
  {
    var n := |opt|;
    match mut
    case 1 => if n >= 8 then Shift32(opt, 4, -0x1000) else opt
    case 2 => if n >= 8 then Shift32(opt, 4, 1) else opt
    case 3 => opt[3 := if opt[3] / 64 % 2 == 0 then opt[3] + 64 else opt[3]]
    case 4 => if n >= 12 then Shift32(opt, 8, -0x100) else opt
    case 5 => if n >= 8 then opt[n - 2 := Flip(opt[n - 2])] else opt
    case _ => opt
  }

  function MutNonce(opt: seq<Byte>, mut: nat, replay: seq<Byte>): (r: seq<Byte>)
    requires |opt| == 12 && |replay| == 4
    ensures |r| == 12 && r[0] == opt[0]
  {
    match mut
    case 1 => opt[..8] + [0, 0, 0, 0]
    case 2 => opt[8 := FlipTop(opt[8])]
    case 3 => opt[11 := Flip(opt[11])]
    case 4 => opt[..8] + replay
    case _ => opt
  }

  function MutCtl(opt: seq<Byte>, mut: nat, reason: Byte): (r: seq<Byte>)
    requires |opt| == if mut <= 5 then 4 else 12
    ensures |r| == |opt| && r[0] == opt[0]
  {
    match mut
    case 3 => opt[3 := reason]
    case 4 => opt[2 := Flip(opt[2])]
    case 5 => opt[1 := 3]
    case 6 => opt[4 := Flip(opt[4])]
    case 7 => opt[1 := 8]
    case _ => opt
  }

  function MutPm(opt: seq<Byte>, mut: nat): (r: seq<Byte>)
    requires 3 <= |opt| < 256 && opt[1] == |opt|
    ensures |r| == |opt| && r[0] == opt[0]
  {
    var n := |opt|;
    match mut
    case 1 => if n >= 16 then opt[n - 1 := Flip(opt[n - 1])] else opt
    case 2 => opt[2 := Flip(opt[2])]
    case 3 => if n >= 6 then opt[1 := n - 2] else opt
    case 4 => if n >= 4 then opt[3 := Flip(opt[3])] else opt
    case 5 => opt[1 := 3]
    case 6 => opt[2 := Flip(opt[2])]
    case 7 => if n >= 4 then opt[3 := Flip(opt[3])] else opt
    case _ => opt
  }

  // ----- Which mutation applies -----

  datatype What = Hmac | Map | Nonce | Ctl | Pm

  datatype Tcp = Tcp(fin: bool, syn: bool, rst: bool, ack: bool)

  function FlagsOf(p: seq<Byte>): Tcp
    requires WellFormed(p)
  {
    var f := p[IpLen(p) + 13];
    Tcp(f % 2 == 1, f / 2 % 2 == 1, f / 4 % 2 == 1, f / 16 % 2 == 1)
  }

  predicate Egress(what: What, f: Tcp) {
    match what
    case Nonce => f.syn && !f.ack && !f.fin && !f.rst
    case Ctl => f.rst
    case _ => f.ack && !f.syn && !f.fin && !f.rst
  }

  function WantOf(what: What, mut: nat): Want {
    match what
    case Hmac => Join(24)
    case Map => Dss
    case Nonce => Join(12)
    case Ctl => Subtype(if mut <= 5 then 8 else 7)
    case Pm => Subtype(if mut <= 3 then 3 else if mut <= 5 then 4 else 5)
  }

  /** Pending, not fired before, and the packet is of the kind and carries the option. */
  predicate Eligible(p: seq<Byte>, pending: map<What, nat>, fired: set<What>, what: What)
    requires WellFormed(p)
  {
    && what in pending && pending[what] != 0 && what !in fired && Egress(what, FlagsOf(p))
    && Find(Opts(p), 0, WantOf(what, pending[what])).Some?
  }

  /** The first kind that is eligible, if any. */
  function Choice(p: seq<Byte>, pending: map<What, nat>, fired: set<What>): Option<What>
    requires WellFormed(p)
  {
    if Eligible(p, pending, fired, Hmac) then Some(Hmac)
    else if Eligible(p, pending, fired, Map) then Some(Map)
    else if Eligible(p, pending, fired, Nonce) then Some(Nonce)
    else if Eligible(p, pending, fired, Ctl) then Some(Ctl)
    else if Eligible(p, pending, fired, Pm) then Some(Pm)
    else None
  }

  /** MP_RST and MP_FASTCLOSE have the lengths of sections 3.6 and 3.5 of RFC 8684. */
  predicate Standard(p: seq<Byte>)
    requires WellFormed(p)
  {
    var opts := Opts(p);
    && (Find(opts, 0, Subtype(8)).Some? ==> Length(opts, Subtype(8)) == 4)
    && (Find(opts, 0, Subtype(7)).Some? ==> Length(opts, Subtype(7)) == 12)
  }

  function Length(opts: seq<Byte>, w: Want): nat
    requires (w.Join? ==> w.len >= 3) && Find(opts, 0, w).Some?
  {
    Found(opts, 0, w);
    opts[Find(opts, 0, w).value + 1]
  }

  /** The option found in p for a kind of mutation: where it starts in the packet, and its bytes. */
  function Place(p: seq<Byte>, w: Want): nat
    requires WellFormed(p) && (w.Join? ==> w.len >= 3) && Find(Opts(p), 0, w).Some?
  {
    IpLen(p) + 20 + Find(Opts(p), 0, w).value
  }

  function OptionAt(p: seq<Byte>, at: nat): seq<Byte>
    requires at + 1 < |p| && at + p[at + 1] <= |p|
  {
    p[at..at + p[at + 1]]
  }

  lemma {:induction false} PlaceFits(p: seq<Byte>, w: Want)
    requires WellFormed(p) && (w.Join? ==> w.len >= 3) && Find(Opts(p), 0, w).Some?
    ensures var at := Place(p, w);
      && IpLen(p) + 20 <= at && at + 2 < |p| && at + p[at + 1] <= IpLen(p) + TcpLen(p) <= |p|
      && p[at] == 30 && Wanted(w, p[at + 1], p[at + 2]) && p[at + 1] == Length(Opts(p), w)
  {
    Found(Opts(p), 0, w);
  }

  /** p with the option at this place replaced by one of the same length. */
  function Spliced(p: seq<Byte>, at: nat, opt: seq<Byte>): seq<Byte>
    requires at + |opt| <= |p|
  {
    p[..at] + opt + p[at + |opt|..]
  }

  /** The lengths of options that a mutation applies to. */
  predicate Suits(what: What, mut: nat, n: nat) {
    match what
    case Hmac => n == 24
    case Map => n >= 4
    case Nonce => n == 12
    case Ctl => n == if mut <= 5 then 4 else 12
    case Pm => true
  }

  /** The bytes of the mutated option. */
  function Mutated(what: What, opt: seq<Byte>, mut: nat, reason: Byte, replay: seq<Byte>): (r: seq<Byte>)
    requires 3 <= |opt| < 256 && opt[1] == |opt| && |replay| == 4 && Suits(what, mut, |opt|)
    ensures |r| == |opt| && r[0] == opt[0]
  {
    match what
    case Hmac => MutHmac(opt, mut)
    case Map => MutMap(opt, mut)
    case Nonce => MutNonce(opt, mut, replay)
    case Ctl => MutCtl(opt, mut, reason)
    case Pm => MutPm(opt, mut)
  }

  lemma {:induction false} Mutable(p: seq<Byte>, what: What, mut: nat)
    requires WellFormed(p) && Standard(p) && Find(Opts(p), 0, WantOf(what, mut)).Some?
    ensures var at := Place(p, WantOf(what, mut));
      && IpLen(p) + 20 <= at && at + 2 < |p| && at + p[at + 1] <= |p|
      && var n := |OptionAt(p, at)|;
         3 <= n < 256 && OptionAt(p, at)[1] == n && Suits(what, mut, n)
  {
    PlaceFits(p, WantOf(what, mut));
  }

  /** The packet with the option mutated, before its checksum is made good. */
  function Rewritten(p: seq<Byte>, what: What, mut: nat, reason: Byte, replay: seq<Byte>): (r: seq<Byte>)
    requires WellFormed(p) && Standard(p) && Find(Opts(p), 0, WantOf(what, mut)).Some? && |replay| == 4
    ensures |r| == |p|
  {
    Mutable(p, what, mut);
    var at := Place(p, WantOf(what, mut));
    Spliced(p, at, Mutated(what, OptionAt(p, at), mut, reason, replay))
  }

  /** Only the bytes of one option, found at an option boundary, differ; the headers stay what they are. */
  lemma {:induction false} OneOption(p: seq<Byte>, what: What, mut: nat, reason: Byte, replay: seq<Byte>)
    requires WellFormed(p) && Standard(p) && Find(Opts(p), 0, WantOf(what, mut)).Some? && |replay| == 4
    ensures var at, r := Place(p, WantOf(what, mut)), Rewritten(p, what, mut, reason, replay);
      && at + 2 < |p| && WellFormed(r) && IpLen(r) == IpLen(p) && TcpLen(r) == TcpLen(p) && r[at] == p[at] == 30
      && Boundary(Opts(p), 0, at - IpLen(p) - 20) && at + p[at + 1] <= IpLen(p) + TcpLen(p)
      && forall i :: 0 <= i < |p| && !(at < i < at + p[at + 1]) ==> r[i] == p[i]
  {
    hide Find, Mutated, Boundary;
    Mutable(p, what, mut);
    PlaceFits(p, WantOf(what, mut));
    Found(Opts(p), 0, WantOf(what, mut));
  }

  /** What the worker looks at before it touches a packet. */
  predicate Passes(p: seq<Byte>) {
    && |p| >= 40 && p[9] == 6 && IpLen(p) + 20 <= |p|
    && IpLen(p) + TcpLen(p) <= |p|
  }

  class Worker {
    var pending: map<What, nat>
    var fired: set<What>
    var anyFired: bool
    var reason: Byte
    var replay: seq<Byte>

    ghost predicate Valid()
      reads this
    {
      |replay| == 4 && forall w: What :: w in pending
    }

    /** Writes the mutated option over the one found; a replayed nonce is swapped for the one kept. */
    method Apply(p: array<Byte>, what: What, at: nat)
      requires Valid() && WellFormed(p[..]) && Standard(p[..])
      requires Find(Opts(p[..]), 0, WantOf(what, pending[what])) == Some(at)
      modifies p, this`fired, this`reason, this`replay
      ensures Valid() && fired == old(fired) + {what}
      ensures p[..] == Rewritten(old(p[..]), what, pending[what], old(reason), old(replay))
      ensures reason == (if what == Ctl && pending[what] == 3 then (old(reason) + 1) % 256 else old(reason))
      ensures var k := IpLen(old(p[..])) + 28 + at;
        if what == Nonce && pending[what] == 4 then k + 4 <= p.Length && replay == old(p[..])[k..k + 4]
        else replay == old(replay)
    {
      hide Find, Mutated, Standard, Opts, WantOf, Wanted, TcpLen, Spliced;
      ghost var was := p[..];
      var mut := pending[what];
      Mutable(was, what, mut);
      var place := p[0] % 16 * 4 + 20 + at;
      var opt := p[place..place + p[place + 1]];
      assert opt == OptionAt(was, place);
      var changed := Mutated(what, opt, mut, reason, replay);
      Write(p, place, changed);
      if what == Nonce && mut == 4 {
        replay := opt[8..];
      }
      if what == Ctl && mut == 3 {
        reason := if reason == 255 then 0 else reason + 1;
      }
      fired := fired + {what};
    }

    method Write(p: array<Byte>, at: nat, opt: seq<Byte>)
      requires at + |opt| <= p.Length
      modifies p
      ensures p[..] == Spliced(old(p[..]), at, opt)
    {
      var i := 0;
      while i < |opt|
        invariant 0 <= i <= |opt|
        invariant forall k :: 0 <= k < p.Length ==> p[k] == if at <= k < at + i then opt[k - at] else old(p[k])
      {
        p[at + i] := opt[i];
        i := i + 1;
      }
    }

    /** One kind of mutation, if it is pending, has not fired and finds its option. */
    method Try(p: array<Byte>, what: What) returns (applied: bool)
      requires Valid() && WellFormed(p[..]) && Standard(p[..]) && what !in fired && Egress(what, FlagsOf(p[..]))
      modifies p, this`fired, this`reason, this`replay
      ensures Valid() && applied == old(Eligible(p[..], pending, fired, what))
      ensures !applied ==> p[..] == old(p[..]) && fired == old(fired) && reason == old(reason) && replay == old(replay)
      ensures applied ==> fired == old(fired) + {what}
      ensures applied ==> p[..] == Rewritten(old(p[..]), what, pending[what], old(reason), old(replay))
    {
      hide Find, Mutated, Rewritten, Standard, Opts;
      applied := false;
      if pending[what] != 0 {
        var r := FindOption(p, WantOf(what, pending[what]));
        if r.Some? {
          Apply(p, what, r.value);
          applied := true;
        }
      }
    }

    /** The dispatch over the kinds, in the order and with the conditions of the worker's loop. */
    method Dispatch(p: array<Byte>) returns (applied: bool)
      requires Valid() && WellFormed(p[..]) && Standard(p[..])
      modifies p, this`fired, this`reason, this`replay
      ensures Valid()
      ensures var c := Choice(old(p[..]), pending, old(fired));
        && applied == c.Some?
        && (c.None? ==> p[..] == old(p[..]) && fired == old(fired))
        && (c.Some? ==> fired == old(fired) + {c.value})
        && (c.Some? ==> p[..] == Rewritten(old(p[..]), c.value, pending[c.value], old(reason), old(replay)))
    {
      hide Find, Rewritten, Standard, Opts;
      var f := p[p[0] % 16 * 4 + 13];
      var tcp := Tcp(f % 2 == 1, f / 2 % 2 == 1, f / 4 % 2 == 1, f / 16 % 2 == 1);
      var plainAck := tcp.ack && !tcp.syn && !tcp.fin && !tcp.rst;
      applied := false;
      if plainAck && Hmac !in fired {
        applied := Try(p, Hmac);
      }
      if !applied && plainAck && Map !in fired {
        applied := Try(p, Map);
      } else if tcp.syn && !tcp.ack && !tcp.fin && !tcp.rst && Nonce !in fired {
        applied := Try(p, Nonce);
      }
      if !applied && tcp.rst && Ctl !in fired {
        applied := Try(p, Ctl);
      }
      if !applied && plainAck && Pm !in fired {
        applied := Try(p, Pm);
      }
    }

    /** A packet that the first eligible kind of mutation rewrites comes out with one option changed and its
        checksum right; any other comes out as it was. */
    method Process(p: array<Byte>) returns (applied: bool)
      requires Valid() && (Passes(p[..]) ==> WellFormed(p[..]) && Standard(p[..]))
      modifies p, this`fired, this`reason, this`replay, this`anyFired
      ensures Valid() && (applied ==> old(Passes(p[..])) && anyFired)
      ensures !applied ==> p[..] == old(p[..]) && fired == old(fired) && anyFired == old(anyFired)
      ensures old(Passes(p[..])) ==> applied == Choice(old(p[..]), pending, old(fired)).Some?
      ensures applied ==>
        var was, what := old(p[..]), Choice(old(p[..]), pending, old(fired)).value;
        var r := Rewritten(was, what, pending[what], old(reason), old(replay));
        && fired == old(fired) + {what} && what !in old(fired)
        && WellFormed(p[..]) && ChecksumOk(p[..])
        && forall i :: 0 <= i < p.Length && i != IpLen(was) + 16 && i != IpLen(was) + 17 ==> p[i] == r[i]
    {
      hide Find, Rewritten, Standard, Opts, ChecksumOk, Mutated;
      ghost var was := p[..];
      applied := false;
      if p.Length >= 40 && p[9] == 6 && p.Length >= p[0] % 16 * 4 + 20 {
        if p.Length >= p[0] % 16 * 4 + p[p[0] % 16 * 4 + 12] / 16 * 4 {
          assert Passes(was);
          applied := Dispatch(p);
        }
      }
      if applied {
        ghost var what := Choice(was, pending, old(fired)).value;
        OneOption(was, what, pending[what], old(reason), old(replay));
        ComputeChecksum(p);
        anyFired := true;
      }
    }
  }
}
