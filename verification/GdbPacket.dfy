/** gdb-stub.c: the packets sent to the debugger, and the reading of hexadecimal digits.

    A packet is "$body#cc": the fragments, some of them as hexadecimal digits, with runs of a
    repeated character encoded, followed by the sum of the body modulo 256 in two digits. */
module GdbPacket {
  import opened Machine

  const STAR: Byte := 42     // '*'
  const HASH: Byte := 35     // '#'
  const DOLLAR: Byte := 36   // '$'

  // ---------- hexadecimal digits ----------

  /** hexchars[n] */
  function HexChar(n: int): Byte
    requires 0 <= n < 16
  {
    if n < 10 then 48 + n else 87 + n
  }

  lemma HexChars(n: nat)
    requires n < 16
    ensures HexChar(n) == "0123456789abcdef"[n] as int
  {
  }

  function Hex(ch: Byte): (r: int)
    ensures -1 <= r < 16
    ensures forall n :: 0 <= n < 16 && HexChar(n) == ch ==> r == n
  {
    if 48 <= ch <= 57 then ch - 48
    else if 97 <= ch <= 102 then ch - 97 + 10
    else if 65 <= ch <= 70 then ch - 65 + 10
    else -1
  }

  /** Digits of either case are read, and nothing else. */
  lemma HexReads(ch: Byte)
    ensures forall n :: 0 <= n < 16 && (ch == "0123456789abcdef"[n] as int || ch == "0123456789ABCDEF"[n] as int) ==> Hex(ch) == n
    ensures Hex(ch) >= 0 ==> ch == "0123456789abcdef"[Hex(ch)] as int || ch == "0123456789ABCDEF"[Hex(ch)] as int
    ensures Hex(ch) < 0 ==> Hex(ch) == -1
  {
  }

  /** Two digits for each byte, high nibble first. */
  function Hexify(s: seq<Byte>): seq<Byte> {
    if s == [] then [] else [HexChar(s[0] / 16), HexChar(s[0] % 16)] + Hexify(s[1..])
  }

  /** Pair k of the characters is two digits. */
  predicate Digits(s: seq<Byte>, k: nat)
    requires 2 * k + 1 < |s|
  {
    Hex(s[2 * k]) >= 0 && Hex(s[2 * k + 1]) >= 0
  }

  /** The pairs of digits stand for the bytes out. */
  ghost predicate StandsFor(s: seq<Byte>, out: seq<Byte>) {
    && 2 * |out| <= |s|
    && forall k :: 0 <= k < |out| ==> Digits(s, k) && out[k] == 16 * Hex(s[2 * k]) + Hex(s[2 * k + 1])
  }

  /** hex2bin: reads len bytes, and fails at the first pair that is not two digits. */
  method Hex2Bin(input: seq<Byte>, len: nat) returns (r: int, out: seq<Byte>)
    requires 2 * len <= |input|
    ensures r == if forall k :: 0 <= k < len ==> Digits(input, k) then 0 else -1
    ensures StandsFor(input, out)
    ensures r == 0 ==> |out| == len
    ensures r != 0 ==> |out| < len && !Digits(input, |out|)
  {
    out := [];
    var i, left := 0, len;
    while left > 0
      invariant i == 2 * |out| && |out| + left == len
      invariant StandsFor(input, out)
    {
      left := left - 1;
      var high, low := Hex(input[i]), Hex(input[i + 1]);
      if high < 0 || low < 0 {   // the shifted and combined number is negative
        assert !Digits(input, |out|);
        return -1, out;
      }
      out := out + [16 * high + low];
      i := i + 2;
    }
    return 0, out;
  }

  lemma {:induction false} HexifyDigits(s: seq<Byte>, k: nat)
    requires k < |s|
    ensures |Hexify(s)| == 2 * |s|
    ensures Hex(Hexify(s)[2 * k]) == s[k] / 16 && Hex(Hexify(s)[2 * k + 1]) == s[k] % 16
  {
    if |s| == 1 {
      assert s[1..] == [];
    } else {
      HexifyDigits(s[1..], if k > 0 then k - 1 else 0);
    }
  }

  lemma PairStands(s: seq<Byte>, h: seq<Byte>, k: nat)
    requires k < |s| && h == Hexify(s)
    ensures |h| == 2 * |s| && Digits(h, k) && 16 * Hex(h[2 * k]) + Hex(h[2 * k + 1]) == s[k]
  {
    HexifyDigits(s, k);
  }

  lemma HexifyLength(s: seq<Byte>)
    ensures |Hexify(s)| == 2 * |s|
  {
    if s != [] { HexifyDigits(s, 0); }
  }

  /** Digits stand for one string of bytes only. */
  lemma StandsForOne(h: seq<Byte>, s: seq<Byte>, out: seq<Byte>)
    requires |out| == |s| && StandsFor(h, s)
    ensures StandsFor(h, out) <==> out == s
  {
  }

  /** The digits of a string of bytes stand for these bytes and no others, so hex2bin undoes Hexify. */
  lemma HexRoundTrip(s: seq<Byte>, out: seq<Byte>)
    requires |out| == |s|
    ensures StandsFor(Hexify(s), out) <==> out == s
  {
    var h := Hexify(s);
    HexifyLength(s);
    forall k | 0 <= k < |s|
      ensures Digits(h, k) && 16 * Hex(h[2 * k]) + Hex(h[2 * k + 1]) == s[k]
    {
      PairStands(s, h, k);
    }
    StandsForOne(h, s, out);
  }

  // ---------- run-length encoding ----------

  /** A character, or a run of n times the same one. */
  datatype Token = Lit(c: Byte) | Rep(c: Byte, n: nat)

  /** The characters sent: a run is the character, a star, and its length coded as one character. */
  function Coded(t: Token): seq<Byte>
    requires Short(t)
  {
    match t
    case Lit(c) => [c]
    case Rep(c, n) => [c, STAR, 29 + n - 1]
  }

  lemma CodedIs(c: Byte, n: nat)
    requires 4 <= n <= 98
    ensures Coded(Lit(c)) == [c] && Coded(Rep(c, n)) == [c, '*' as int, n + 28]
  {
  }

  function Meant(t: Token): seq<Byte> {
    match t
    case Lit(c) => [c]
    case Rep(c, n) => Times(c, n)
  }

  /** A run has from 4 to 98 characters. */
  ghost predicate Short(t: Token) {
    t.Rep? ==> 4 <= t.n <= 98
  }

  /** The receiver: a star and a count after a character repeat it count - 29 more times. */
  function Decode(s: seq<Byte>): seq<Byte> {
    if s == [] then []
    else if |s| >= 3 && s[1] == STAR && s[2] >= 29 then Times(s[0], s[2] - 29 + 1) + Decode(s[3..])
    else [s[0]] + Decode(s[1..])
  }

  /** The receiver reads msg off body, whatever follows, unless that begins with a star. */
  ghost predicate Decodes(body: seq<Byte>, msg: seq<Byte>) {
    forall rest: seq<Byte> :: (rest != [] ==> rest[0] != STAR) ==> Decode(body + rest) == msg + Decode(rest)
  }

  lemma {:induction false} DecodeToken(t: Token, rest: seq<Byte>)
    requires Short(t) && t.c != STAR && (rest != [] ==> rest[0] != STAR)
    ensures Decode(Coded(t) + rest) == Meant(t) + Decode(rest)
  {
    var s := Coded(t) + rest;
    if t.Lit? {
      assert s[1..] == rest;
    } else {
      assert s[3..] == rest;
      assert s[2] == 29 + t.n - 1;
    }
  }

  lemma DecodesOneMore(body: seq<Byte>, msg: seq<Byte>, t: Token)
    requires Decodes(body, msg) && Short(t) && t.c != STAR
    ensures Decodes(body + Coded(t), msg + Meant(t))
  {
    forall rest: seq<Byte> | rest != [] ==> rest[0] != STAR
      ensures Decode(body + Coded(t) + rest) == msg + Meant(t) + Decode(rest)
    {
      DecodeToken(t, rest);
      Assoc(body, Coded(t), rest);
      Assoc(msg, Meant(t), Decode(rest));
      assert (Coded(t) + rest)[0] == t.c;
    }
  }

  lemma Assoc(a: seq<Byte>, b: seq<Byte>, c: seq<Byte>)
    ensures (a + b) + c == a + (b + c)
  {
  }

  // ---------- packets ----------

  /** struct outfrag: len bytes, or the bytes before the first NUL if len is 0. */
  datatype Frag = Frag(data: seq<Byte>, len: nat, hexify: bool)

  ghost predicate Readable(f: Frag) {
    if f.len > 0 then f.len <= |f.data| else 0 in f.data
  }

  function BeforeNul(s: seq<Byte>): (r: seq<Byte>)
    requires 0 in s
    ensures |r| < |s| && r == s[..|r|] && 0 !in r && s[|r|] == 0
  {
    if s[0] == 0 then [] else [s[0]] + BeforeNul(s[1..])
  }

  function Content(f: Frag): (r: seq<Byte>)
    requires Readable(f)
    ensures |r| <= |f.data| && r == f.data[..|r|]
    ensures f.len > 0 ==> |r| == f.len
    ensures f.len == 0 ==> |r| < |f.data| && 0 !in r && f.data[|r|] == 0
  {
    if f.len > 0 then f.data[..f.len] else BeforeNul(f.data)
  }

  /** What the receiver is to see of a part of a fragment. */
  function Plain(f: Frag, s: seq<Byte>): seq<Byte> {
    if f.hexify then Hexify(s) else s
  }

  function Sum(s: seq<Byte>): nat {
    if s == [] then 0 else Sum(s[..|s| - 1]) + s[|s| - 1]
  }

  lemma {:induction false} HexifyAppend(a: seq<Byte>, b: seq<Byte>)
    ensures Hexify(a + b) == Hexify(a) + Hexify(b)
  {
    if a == [] {
      assert a + b == b;
    } else {
      HexifyAppend(a[1..], b);
      assert (a + b)[1..] == a[1..] + b;
      Assoc([HexChar(a[0] / 16), HexChar(a[0] % 16)], Hexify(a[1..]), Hexify(b));
    }
  }

  /** Equal bytes with equal nibbles are twice as many equal digits. */
  lemma {:induction false} HexifyRun(s: seq<Byte>, c: Byte)
    requires (forall i :: 0 <= i < |s| ==> s[i] == c) && c / 16 == c % 16
    ensures Hexify(s) == Times(HexChar(c % 16), 2 * |s|)
  {
    if s != [] {
      HexifyRun(s[1..], c);
    }
  }

  /** The length of the run of equal characters from place p on. */
  function RunLength(s: seq<Byte>, p: nat): (n: nat)
    requires p < |s|
    ensures 0 < n <= |s| - p && forall i :: p <= i < p + n ==> s[i] == s[p]
    ensures p + n < |s| ==> s[p + n] != s[p]
    decreases |s| - p
  {
    if p + 1 < |s| && s[p + 1] == s[p] then 1 + RunLength(s, p + 1) else 1
  }

  /** From place p on, there is a whole run whose length is 7 modulo 98. */
  predicate Sevens(s: seq<Byte>, p: nat)
    requires p <= |s|
    decreases |s| - p
  {
    p < |s| && (RunLength(s, p) % 98 == 7 || Sevens(s, p + RunLength(s, p)))
  }

  /** A string of equal bytes has such a run exactly if its own length is 7 modulo 98. */
  lemma SevensOfOneRun(c: Byte, n: nat)
    ensures Sevens(Times(c, n), 0) <==> n % 98 == 7
  {
    if n > 0 {
      assert RunLength(Times(c, n), 0) == n;
      assert !Sevens(Times(c, n), n);
    }
  }

  /** What the encoder takes off a run of bytes at place p. */
  predicate Taken(s: seq<Byte>, p: nat, n: nat)
    requires p < |s|
  {
    var run := RunLength(s, p);
    n == if run < 4 then 1 else if run < 98 then run else 98
  }

  /** Only a run coded with the length 7 makes a difference to the runs that are left. */
  lemma SevensSkip(s: seq<Byte>, p: nat, n: nat)
    requires p < |s| && Taken(s, p, n)
    ensures p + n <= |s| && (Sevens(s, p) <==> n == 7 || Sevens(s, p + n))
  {
    if n < RunLength(s, p) {
      RunLengthRest(s, p, n);
      SameRest(s, p, n);
      SameModulo(RunLength(s, p), n);
    }
  }

  lemma SameModulo(run: nat, n: nat)
    requires 0 < n < run && (n == 98 || (n == 1 && run < 4))
    ensures (run - n) % 98 == 7 <==> run % 98 == 7
  {
  }

  /** Further on in the same run, the runs behind it are the same. */
  lemma SameRest(s: seq<Byte>, p: nat, n: nat)
    requires p < |s| && 0 < n < RunLength(s, p) && RunLength(s, p + n) == RunLength(s, p) - n
    ensures Sevens(s, p + n) <==> (RunLength(s, p) - n) % 98 == 7 || Sevens(s, p + RunLength(s, p))
  {
  }

  lemma {:induction false} RunLengthRest(s: seq<Byte>, p: nat, n: nat)
    requires p < |s| && n < RunLength(s, p)
    ensures RunLength(s, p + n) == RunLength(s, p) - n
    decreases n
  {
    if n > 0 {
      RunLengthRest(s, p + 1, n - 1);
    }
  }

  /** The parts of the state that putfrags carries from character to character: what was sent of
      the body, and its sum in an unsigned char. */
  datatype Sent = Sent(body: seq<Byte>, checksum: Byte)

  predicate Summed(o: Sent) {
    o.checksum == Sum(o.body) % 256
  }

  lemma SumMore(s: seq<Byte>, ch: Byte)
    ensures Sum(s + [ch]) == Sum(s) + ch
  {
    assert (s + [ch])[..|s|] == s;
  }

  /** The unsigned char wraps early, which makes no difference. */
  lemma WrapsEarly(x: nat, ch: Byte)
    ensures (x % 256 + ch) % 256 == (x + ch) % 256
  {
  }

  /** The macro SEND. */
  method Send(o: Sent, ch: Byte) returns (r: Sent)
    requires Summed(o)
    ensures Summed(r) && r.body == o.body + [ch]
  {
    SumMore(o.body, ch);
    WrapsEarly(Sum(o.body), ch);
    r := Sent(o.body + [ch], (o.checksum + ch) % 256);
  }

  method SendToken(o: Sent, t: Token) returns (r: Sent)
    requires Summed(o) && Short(t)
    ensures Summed(r) && r.body == o.body + Coded(t)
  {
    r := Send(o, t.c);
    if t.Rep? {
      r := Send(r, STAR);
      r := Send(r, 29 + t.n - 1);
    }
  }

  /** Whether place p begins a run of at least four equal characters of the output. */
  method RunAt(f: Frag, p: nat) returns (run: bool)
    requires Readable(f) && p < |Content(f)|
    ensures run <==> if f.hexify then RunLength(Content(f), p) >= 2 && f.data[p] / 16 == f.data[p] % 16
                     else RunLength(Content(f), p) >= 4
  {
    var d := f.data;
    run := (f.len == 0 || p + (if f.hexify then 1 else 3) < f.len)
      && d[p + 1] == d[p]
      && if f.hexify then d[p] / 16 == d[p] % 16 else d[p + 2] == d[p] && d[p + 3] == d[p];
  }

  /** Where the run from place p ends, or the part of it that one code can express. */
  method RunEnd(f: Frag, p: nat) returns (q: nat)
    requires Readable(f) && p < |Content(f)| && RunLength(Content(f), p) >= if f.hexify then 2 else 4
    ensures var n, most := RunLength(Content(f), p), if f.hexify then 49 else 98;
            q == p + if n < most then n else most
  {
    var limit;
    if f.hexify {
      q, limit := p + 2, p + 49;
    } else {
      q, limit := p + 4, p + 98;
    }
    if f.len > 0 && limit > f.len { limit := f.len; }
    while q < limit && f.data[q] == f.data[p]
      invariant p < q <= limit && q <= |Content(f)| && q - p <= RunLength(Content(f), p)
    {
      q := q + 1;
    }
  }

  /** The receiver sees part [p, q) of the fragment next. */
  lemma PlainStep(f: Frag, c: seq<Byte>, p: nat, q: nat)
    requires p <= q <= |c|
    ensures Plain(f, c[..q]) == Plain(f, c[..p]) + Plain(f, c[p..q])
  {
    assert c[..q] == c[..p] + c[p..q];
    HexifyAppend(c[..p], c[p..q]);
  }

  /** What is wrong with a fragment: sent as it is, it may hold a character that means something else. */
  ghost predicate Starred(f: Frag)
    requires Readable(f)
  {
    !f.hexify && STAR in Content(f)
  }

  /** The body is going to contain '#': the fragment itself does, or one of its runs is coded as '#'. */
  ghost predicate Hashed(f: Frag)
    requires Readable(f)
  {
    !f.hexify && (HASH in Content(f) || Sevens(Content(f), 0))
  }

  /** From o to r, the part of a fragment was sent: what the receiver reads grows by it. */
  ghost predicate Adds(o: Sent, r: Sent, f: Frag, part: seq<Byte>) {
    && Summed(r)
    && (f.hexify || STAR !in part ==>
          forall msg :: Decodes(o.body, msg) ==> Decodes(r.body, msg + Plain(f, part)))
  }

  lemma CodedHash(t: Token)
    requires Short(t)
    ensures HASH in Coded(t) <==> t.c == HASH || (t.Rep? && t.n == 7)
  {
    if t.Rep? { assert Coded(t)[0] == t.c && Coded(t)[1] == STAR && Coded(t)[2] == 28 + t.n; }
  }

  /** One more token, which stands for part of the fragment. */
  method SendPart(ghost f: Frag, ghost part: seq<Byte>, o: Sent, t: Token) returns (r: Sent)
    requires Summed(o) && Short(t) && Meant(t) == Plain(f, part)
    requires f.hexify || STAR !in part ==> t.c != STAR
    ensures Adds(o, r, f, part)
    ensures HASH in r.body <==> HASH in o.body || t.c == HASH || (t.Rep? && t.n == 7)
  {
    r := SendToken(o, t);
    CodedHash(t);
    if f.hexify || STAR !in part {
      forall msg | Decodes(o.body, msg)
        ensures Decodes(r.body, msg + Plain(f, part))
      {
        DecodesOneMore(o.body, msg, t);
      }
    }
  }

  /** At place p begins a run of four characters of the output or more. */
  ghost predicate LongRun(f: Frag, p: nat)
    requires Readable(f) && p < |Content(f)|
  {
    if f.hexify then RunLength(Content(f), p) >= 2 && f.data[p] / 16 == f.data[p] % 16 else RunLength(Content(f), p) >= 4
  }

  method SendRun(f: Frag, p: nat, q: nat, o: Sent) returns (r: Sent)
    requires Readable(f) && p < q <= |Content(f)| && q - p <= RunLength(Content(f), p) && Summed(o)
    requires if f.hexify then 2 <= q - p <= 49 && f.data[p] / 16 == f.data[p] % 16 else 4 <= q - p <= 98
    ensures Adds(o, r, f, Content(f)[p..q])
    ensures HASH in r.body <==> HASH in o.body || (!f.hexify && (f.data[p] == HASH || q - p == 7))
  {
    ghost var part := Content(f)[p..q];
    assert part[0] == f.data[p];
    if f.hexify {
      HexifyRun(part, f.data[p]);
      r := SendPart(f, part, o, Rep(HexChar(f.data[p] % 16), 2 * (q - p)));
    } else {
      assert part == Times(f.data[p], q - p);
      r := SendPart(f, part, o, Rep(f.data[p], q - p));
    }
  }

  /** Two digits for one byte. */
  method SendDigits(f: Frag, d: Byte, o: Sent) returns (r: Sent)
    requires f.hexify && Summed(o)
    ensures Adds(o, r, f, [d])
    ensures HASH in r.body <==> HASH in o.body
  {
    var high, low := HexChar(d / 16), HexChar(d % 16);
    ghost var raw := Frag([], 0, false);
    var half := SendPart(raw, [high], o, Lit(high));
    r := SendPart(raw, [low], half, Lit(low));
    BothDigits(f, d, o, half, r);
  }

  lemma BothDigits(f: Frag, d: Byte, o: Sent, half: Sent, r: Sent)
    requires f.hexify && Adds(o, half, Frag([], 0, false), [HexChar(d / 16)])
    requires Adds(half, r, Frag([], 0, false), [HexChar(d % 16)])
    ensures Adds(o, r, f, [d])
  {
    var high, low := HexChar(d / 16), HexChar(d % 16);
    assert Hexify([d]) == [high] + [low];
    forall msg | Decodes(o.body, msg)
      ensures Decodes(r.body, msg + Plain(f, [d]))
    {
      Assoc(msg, [high], [low]);
      assert Decodes(half.body, msg + [high]);
    }
  }

  /** One byte. */
  method SendOne(f: Frag, d: Byte, o: Sent) returns (r: Sent)
    requires Summed(o)
    ensures Adds(o, r, f, [d])
    ensures HASH in r.body <==> HASH in o.body || (!f.hexify && d == HASH)
  {
    if f.hexify {
      r := SendDigits(f, d, o);
    } else {
      r := SendPart(f, [d], o, Lit(d));
    }
  }

  /** How far the next round of the loop gets, and whether with a run. */
  method RunAfter(f: Frag, p: nat) returns (run: bool, q: nat)
    requires Readable(f) && p < |Content(f)|
    ensures p < q <= |Content(f)| && q - p <= RunLength(Content(f), p)
    ensures run && f.hexify ==> 2 <= q - p <= 49 && f.data[p] / 16 == f.data[p] % 16
    ensures run && !f.hexify ==> 4 <= q - p <= 98
    ensures !run ==> q == p + 1
    ensures !f.hexify ==> Taken(Content(f), p, q - p)
    ensures run <==> LongRun(f, p)
    ensures run ==> q - p == Min(RunLength(Content(f), p), if f.hexify then 49 else 98)
  {
    run := RunAt(f, p);
    if run {
      q := RunEnd(f, p);
    } else {
      q := p + 1;
    }
  }

  /** One round of the loop over a fragment. */
  method SendNext(f: Frag, p: nat, o: Sent) returns (q: nat, r: Sent)
    requires Readable(f) && p < |Content(f)| && Summed(o)
    ensures p < q <= |Content(f)| && Adds(o, r, f, Content(f)[p..q])
    ensures HASH in r.body <==> HASH in o.body || (!f.hexify && (f.data[p] == HASH || q - p == 7))
    ensures !f.hexify ==> Taken(Content(f), p, q - p)
    ensures forall i :: p <= i < q ==> f.data[i] == f.data[p]
  {
    var run;
    run, q := RunAfter(f, p);
    if run {
      r := SendRun(f, p, q, o);
    } else {
      assert Content(f)[p..q] == [f.data[p]];
      r := SendOne(f, f.data[p], o);
    }
  }

  lemma AddsMore(o: Sent, r: Sent, r': Sent, f: Frag, c: seq<Byte>, p: nat, q: nat)
    requires p <= q <= |c| && Adds(o, r, f, c[..p]) && Adds(r, r', f, c[p..q])
    ensures Adds(o, r', f, c[..q])
  {
    PlainStep(f, c, p, q);
    assert c[..q] == c[..p] + c[p..q];
    if f.hexify || STAR !in c[..q] {
      forall msg | Decodes(o.body, msg)
        ensures Decodes(r'.body, msg + Plain(f, c[..q]))
      {
        assert Decodes(r.body, msg + Plain(f, c[..p]));
        Assoc(msg, Plain(f, c[..p]), Plain(f, c[p..q]));
      }
    }
  }

  /** Up to place p, the part sent has a '#', or there is one to come, exactly as the whole has. */
  ghost predicate HashSo(c: seq<Byte>, p: nat, sent: bool, sentBefore: bool)
    requires p <= |c|
  {
    sent || Sevens(c, p) <==> sentBefore || HASH in c[..p] || Sevens(c, 0)
  }

  lemma HashStep(c: seq<Byte>, p: nat, q: nat, sent: bool, sent': bool, sentBefore: bool)
    requires p < q <= |c| && Taken(c, p, q - p) && forall i :: p <= i < q ==> c[i] == c[p]
    requires HashSo(c, p, sent, sentBefore) && (sent' <==> sent || c[p] == HASH || q - p == 7)
    ensures HashSo(c, q, sent', sentBefore)
  {
    SevensSkip(c, p, q - p);
    assert c[..q] == c[..p] + c[p..q];
    assert c[p..q][0] == c[p];
  }

  method SendFrag(f: Frag, o: Sent) returns (r: Sent)
    requires Readable(f) && Summed(o)
    ensures Adds(o, r, f, Content(f))
    ensures HASH in r.body <==> HASH in o.body || Hashed(f)
  {
    var p := 0;
    r := o;
    ghost var c := Content(f);
    AddsNothing(o, f);
    while if f.len != 0 then p < f.len else f.data[p] != 0
      invariant p <= |c| && Adds(o, r, f, c[..p])
      invariant f.hexify ==> (HASH in r.body <==> HASH in o.body)
      invariant !f.hexify ==> HashSo(c, p, HASH in r.body, HASH in o.body)
      decreases |c| - p
    {
      ghost var r0, p0 := r, p;
      p, r := SendNext(f, p, r);
      AddsMore(o, r0, r, f, c, p0, p);
      if !f.hexify { HashStep(c, p0, p, HASH in r0.body, HASH in r.body, HASH in o.body); }
    }
    assert c[..p] == c;
  }

  lemma AddsNothing(o: Sent, f: Frag)
    requires Summed(o)
    ensures Adds(o, o, f, [])
  {
    forall msg | Decodes(o.body, msg)
      ensures Decodes(o.body, msg + Plain(f, []))
    {
      assert msg + [] == msg;
    }
  }

  ghost predicate AllReadable(frags: seq<Frag>) {
    forall i :: 0 <= i < |frags| ==> Readable(frags[i])
  }

  /** What the receiver is to see of the first n fragments. */
  ghost function Message(frags: seq<Frag>, n: nat): seq<Byte>
    requires AllReadable(frags) && n <= |frags|
  {
    if n == 0 then [] else Message(frags, n - 1) + Plain(frags[n - 1], Content(frags[n - 1]))
  }

  ghost predicate SomeHashed(frags: seq<Frag>, n: nat)
    requires AllReadable(frags) && n <= |frags|
  {
    exists i :: 0 <= i < n && Hashed(frags[i])
  }

  ghost predicate NoneStarred(frags: seq<Frag>, n: nat)
    requires AllReadable(frags) && n <= |frags|
  {
    forall i :: 0 <= i < n ==> !Starred(frags[i])
  }

  lemma HashedStep(frags: seq<Frag>, n: nat)
    requires AllReadable(frags) && n < |frags|
    ensures SomeHashed(frags, n + 1) <==> SomeHashed(frags, n) || Hashed(frags[n])
    ensures NoneStarred(frags, n + 1) <==> NoneStarred(frags, n) && !Starred(frags[n])
  {
  }

  method PutBody(frags: seq<Frag>) returns (o: Sent)
    requires AllReadable(frags)
    ensures Summed(o)
    ensures NoneStarred(frags, |frags|) ==> Decode(o.body) == Message(frags, |frags|)
    ensures HASH in o.body <==> SomeHashed(frags, |frags|)
  {
    o := Sent([], 0);
    var i := 0;
    DecodesNothing();
    while i < |frags|
      invariant i <= |frags| && Summed(o)
      invariant NoneStarred(frags, i) ==> Decodes(o.body, Message(frags, i))
      invariant HASH in o.body <==> SomeHashed(frags, i)
    {
      HashedStep(frags, i);
      o := SendFrag(frags[i], o);
      i := i + 1;
    }
    DecodesAll(o.body, Message(frags, |frags|));
  }

  lemma DecodesNothing()
    ensures Decodes([], [])
  {
    forall rest: seq<Byte> | rest != [] ==> rest[0] != STAR
      ensures Decode([] + rest) == [] + Decode(rest)
    {
      assert [] + rest == rest && [] + Decode(rest) == Decode(rest);
    }
  }

  lemma DecodesAll(body: seq<Byte>, msg: seq<Byte>)
    ensures Decodes(body, msg) ==> Decode(body) == msg
  {
    if Decodes(body, msg) {
      assert Decode(body + []) == msg + Decode([]);
      assert body + [] == body && msg + [] == msg;
    }
  }

  /** The receiver: the body ends at the first '#'. */
  function Received(s: seq<Byte>): seq<Byte>
    requires |s| > 0
  {
    if s[0] == HASH then [] else if |s| == 1 then s else [s[0]] + Received(s[1..])
  }

  lemma {:induction false} ReceivedBody(body: seq<Byte>, rest: seq<Byte>)
    requires HASH !in body
    ensures Received(body + [HASH] + rest) == body
  {
    var s := body + [HASH] + rest;
    if body != [] {
      assert s[1..] == body[1..] + [HASH] + rest;
      ReceivedBody(body[1..], rest);
    }
  }

  /** What is sent between the "$" and the last "#". */
  function BodyOf(sent: seq<Byte>): seq<Byte>
    requires |sent| >= 4
  {
    sent[1..|sent| - 3]
  }

  lemma PacketParts(body: seq<Byte>, high: Byte, low: Byte)
    ensures var sent := [DOLLAR] + body + [HASH, high, low];
            |sent| >= 4 && BodyOf(sent) == body && sent[1..] == body + [HASH] + [high, low]
  {
  }

  /** A star in a raw fragment may do no harm, and may be read as the mark of a run. */
  lemma StarMayHarm()
    ensures Decode([97, 42]) == [97, 42]
    ensures Decode([97, 42, 32]) == [97, 97, 97, 97]
  {
    var harmless: seq<Byte>, harmed: seq<Byte> := [97, 42], [97, 42, 32];
    assert harmless[1..] == [42] && harmless[1..][1..] == [];
    assert harmed[3..] == [] && Decode(harmed) == Times(97, 4) + [];
  }

  /** putfrags, one transmission.  The body decodes to the message; it contains a '#', which ends
      the packet for the receiver, exactly if a raw fragment does or has a run that is coded so;
      the last two digits are the sum of the body modulo 256.  So, unless that happens, the receiver
      gets the message. */
  method PutFrags(frags: seq<Frag>) returns (sent: seq<Byte>)
    requires AllReadable(frags)
    ensures |sent| >= 4
    ensures var sum := Sum(BodyOf(sent)) % 256;
            sent == [DOLLAR] + BodyOf(sent) + [HASH, HexChar(sum / 16), HexChar(sum % 16)]
    ensures sent[0] == '$' as int && sent[|sent| - 3] == '#' as int
    ensures NoneStarred(frags, |frags|) ==> Decode(BodyOf(sent)) == Message(frags, |frags|)
    ensures HASH in BodyOf(sent) <==> SomeHashed(frags, |frags|)
    ensures !SomeHashed(frags, |frags|) ==> Received(sent[1..]) == BodyOf(sent)
  {
    var o := PutBody(frags);
    var high, low := HexChar(o.checksum / 16), HexChar(o.checksum % 16);
    sent := [DOLLAR] + o.body + [HASH, high, low];
    PacketParts(o.body, high, low);
    if HASH !in o.body { ReceivedBody(o.body, [high, low]); }
  }
}
