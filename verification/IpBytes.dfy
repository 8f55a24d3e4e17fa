/**
  The comparison functions on addresses as Go keeps them: nil or a slice of bytes, where an IPv4
  address has 4 bytes or 16 with a fixed prefix.  Each comparison is shown to be equality of
  canonical forms, and so an equivalence; the reconcilers work on those forms.
 */
module IpBytes {
  import opened Options
  import opened Addresses
  import opened Xfrm

  datatype RawIp = Nil | Bytes(b: seq<bv8>)

  datatype RawNet = NilNet | RawNet(ip: RawIp, mask: seq<bv8>)

  const V4_IN_V6: seq<bv8> := [0, 0, 0, 0, 0, 0, 0, 0, 0, 0, 0xff, 0xff]

  /** The contents of the slice; nil has none. */
  function Contents(ip: RawIp): seq<bv8> {
    if ip.Nil? then [] else ip.b
  }

  /** `net.IP.Equal`. */
  predicate GoEqual(a: RawIp, e: RawIp) {
    var x, y := Contents(a), Contents(e);
    if |x| == |y| then x == y
    else if |x| == 4 && |y| == 16 then y[..12] == V4_IN_V6 && x == y[12..]
    else if |x| == 16 && |y| == 4 then x[..12] == V4_IN_V6 && x[12..] == y
    else false
  }

  predicate IpEqual(a: RawIp, e: RawIp) {
    if a.Nil? then e.Nil? else if e.Nil? then a.Nil? else GoEqual(a, e)
  }

  predicate IpnetEqual(a: RawNet, e: RawNet) {
    if a.NilNet? then e.NilNet? else if e.NilNet? then a.NilNet? else a.mask == e.mask && IpEqual(a.ip, e.ip)
  }

  // ----- canonical forms -----

  /** An IPv4 address in either representation becomes `V4`; all other contents are kept. */
  function FormOf(b: seq<bv8>): IP {
    if |b| == 4 then V4(FromOctets(b[0], b[1], b[2], b[3]))
    else if |b| == 16 && b[..12] == V4_IN_V6 then V4(FromOctets(b[12], b[13], b[14], b[15]))
    else V6(b)
  }

  /** The form that `ipEqual` compares: nil is a value of its own. */
  function IpForm(ip: RawIp): Option<IP> {
    if ip.Nil? then None else Some(FormOf(ip.b))
  }

  /** The form that `net.IP.Equal` compares: nil and an empty slice are the same. */
  function LooseForm(ip: RawIp): Option<IP> {
    if Contents(ip) == [] then None else Some(FormOf(Contents(ip)))
  }

  datatype ByteNet = ByteNet(ip: Option<IP>, mask: seq<bv8>)

  function NetForm(n: RawNet): Option<ByteNet> {
    if n.NilNet? then None else Some(ByteNet(IpForm(n.ip), n.mask))
  }

  /** The four bytes that carry an IPv4 address. */
  function Quad(b: seq<bv8>): (q: Option<seq<bv8>>)
    ensures q.Some? ==> |q.value| == 4
  {
    if |b| == 4 then Some(b)
    else if |b| == 16 && b[..12] == V4_IN_V6 then Some(b[12..])
    else None
  }

  lemma QuadForm(b: seq<bv8>)
    ensures FormOf(b) ==
            match Quad(b) case None => V6(b) case Some(q) => V4(FromOctets(q[0], q[1], q[2], q[3]))
  {
  }

  lemma FromOctetsInjective(q: seq<bv8>, r: seq<bv8>)
    requires |q| == 4 && |r| == 4 && FromOctets(q[0], q[1], q[2], q[3]) == FromOctets(r[0], r[1], r[2], r[3])
    ensures q == r
  {
    hide FromOctets, Octets;
    OctetsRoundTrip(0, q[0], q[1], q[2], q[3]);
    OctetsRoundTrip(0, r[0], r[1], r[2], r[3]);
    assert q == [q[0], q[1], q[2], q[3]] && r == [r[0], r[1], r[2], r[3]];
  }

  lemma SameFormSameQuad(x: seq<bv8>, y: seq<bv8>)
    ensures FormOf(x) == FormOf(y) <==> if Quad(x).Some? then Quad(x) == Quad(y) else x == y
  {
    hide FormOf, FromOctets;
    QuadForm(x);
    QuadForm(y);
    if FormOf(x) == FormOf(y) && Quad(x).Some? && Quad(y).Some? {
      var q, r := Quad(x).value, Quad(y).value;
      assert FormOf(x).addr == FormOf(y).addr;
      FromOctetsInjective(q, r);
    }
  }

  lemma QuadEqual(a: RawIp, e: RawIp)
    ensures GoEqual(a, e) <==>
            if Quad(Contents(a)).Some? then Quad(Contents(a)) == Quad(Contents(e)) else Contents(a) == Contents(e)
  {
    var x, y := Contents(a), Contents(e);
    if |x| == 16 && |y| == 16 && x[..12] == V4_IN_V6 && y[..12] == V4_IN_V6 {
      assert x == x[..12] + x[12..] && y == y[..12] + y[12..];
    }
  }

  /** `net.IP.Equal` compares canonical forms, for slices of every length. */
  lemma GoEqualIsFormEquality(a: RawIp, e: RawIp)
    ensures GoEqual(a, e) <==> LooseForm(a) == LooseForm(e)
  {
    hide FormOf;
    QuadEqual(a, e);
    SameFormSameQuad(Contents(a), Contents(e));
  }

  /** `ipEqual` compares canonical forms, for nil and slices of every length. */
  lemma IpEqualIsFormEquality(a: RawIp, e: RawIp)
    ensures IpEqual(a, e) <==> IpForm(a) == IpForm(e)
  {
    hide FormOf;
    QuadEqual(a, e);
    SameFormSameQuad(Contents(a), Contents(e));
  }

  /** `ipnetEqual` compares canonical forms. */
  lemma IpnetEqualIsFormEquality(a: RawNet, e: RawNet)
    ensures IpnetEqual(a, e) <==> NetForm(a) == NetForm(e)
  {
    hide IpEqual, IpForm;
    if a.RawNet? && e.RawNet? {
      IpEqualIsFormEquality(a.ip, e.ip);
    }
  }

  // ----- masks -----

  /** A byte with `n` leading one bits. */
  function MaskByte(n: nat): bv8 {
    match n
    case 0 => 0x00
    case 1 => 0x80
    case 2 => 0xc0
    case 3 => 0xe0
    case 4 => 0xf0
    case 5 => 0xf8
    case 6 => 0xfc
    case 7 => 0xfe
    case _ => 0xff
  }

  /** `net.CIDRMask`: `ones` leading one bits in `len` bytes. */
  function MaskBytes(ones: nat, len: nat): (m: seq<bv8>)
    ensures |m| == len
  {
    if len == 0 then [] else [MaskByte(ones)] + MaskBytes(if ones >= 8 then ones - 8 else 0, len - 1)
  }

  lemma MaskByteInjective(m: nat, n: nat)
    ensures MaskByte(m) == MaskByte(n) <==> m == n || (m >= 8 && n >= 8)
  {
  }

  /** Masks have equal bytes exactly when they have equal sizes, so a mask can be kept as its size. */
  lemma {:induction false} MaskBytesInjective(ones: nat, len: nat, ones': nat, len': nat)
    requires ones <= 8 * len && ones' <= 8 * len'
    requires MaskBytes(ones, len) == MaskBytes(ones', len')
    ensures ones == ones' && len == len'
    decreases len
  {
    assert len == |MaskBytes(ones, len)| && len' == |MaskBytes(ones', len')|;
    if len != 0 {
      var m, m' := MaskBytes(ones, len), MaskBytes(ones', len');
      assert m[0] == MaskByte(ones) && m'[0] == MaskByte(ones');
      MaskByteInjective(ones, ones');
      var rest, rest' := if ones >= 8 then ones - 8 else 0, if ones' >= 8 then ones' - 8 else 0;
      assert m[1..] == MaskBytes(rest, len - 1) && m'[1..] == MaskBytes(rest', len - 1);
      MaskBytesInjective(rest, len - 1, rest', len - 1);
    }
  }

  // ----- records -----

  type RawTmpl = TmplOf<RawIp>
  type RawPolicy = PolicyOf<RawNet, RawIp>
  type RawState = StateOf<RawIp>

  predicate MarkEqual(l: Option<Xfrm.Mark>, r: Option<Xfrm.Mark>) {
    if l.None? || r.None? then r.None? == l.None? else l.value.mask == r.value.mask && l.value.value == r.value.value
  }

  predicate TmplEqual(l: RawTmpl, r: RawTmpl) {
    && l.proto == r.proto && l.mode == r.mode && l.spi == r.spi && l.reqid == r.reqid
    && GoEqual(l.dst, r.dst) && GoEqual(l.src, r.src)
  }

  predicate AlgoEqual(l: Option<Algo>, r: Option<Algo>) {
    if l.None? || r.None? then r.None? == l.None? else
      && l.value.truncateLen == r.value.truncateLen && l.value.icvLen == r.value.icvLen
      && l.value.name == r.value.name && l.value.key == r.value.key
  }

  predicate EncapEqual(l: Option<Encap<RawIp>>, r: Option<Encap<RawIp>>) {
    if l.None? || r.None? then r.None? == l.None? else
      && l.value.kind == r.value.kind && l.value.srcPort == r.value.srcPort && l.value.dstPort == r.value.dstPort
      && GoEqual(l.value.originalAddress, r.value.originalAddress)
  }

  predicate StateEqual(l: RawState, r: RawState) {
    && l.proto == r.proto && l.mode == r.mode && l.spi == r.spi && l.reqid == r.reqid &&
         l.replayWindow == r.replayWindow
    && GoEqual(l.dst, r.dst) && GoEqual(l.src, r.src) && l.limits == r.limits && MarkEqual(l.mark, r.mark)
    && AlgoEqual(l.auth, r.auth) && AlgoEqual(l.crypt, r.crypt) && AlgoEqual(l.aead, r.aead) &&
         EncapEqual(l.encap, r.encap)
  }

  predicate PolicyMatches(a: RawPolicy, e: RawPolicy) {
    && a.dir == e.dir && a.srcPort == e.srcPort && a.dstPort == e.dstPort && a.proto == e.proto
    && IpnetEqual(a.dst, e.dst) && IpnetEqual(a.src, e.src)
  }

  /** All fields but the templates. */
  predicate HeadEqual(l: RawPolicy, r: RawPolicy) {
    && l.dir == r.dir && l.priority == r.priority && l.index == r.index
    && l.srcPort == r.srcPort && l.dstPort == r.dstPort && l.proto == r.proto
    && IpnetEqual(l.dst, r.dst) && IpnetEqual(l.src, r.src) && MarkEqual(l.mark, r.mark)
  }

  function TmplForm(t: RawTmpl): Xfrm.Tmpl {
    Tmpl.Tmpl(LooseForm(t.dst), LooseForm(t.src), t.proto, t.mode, t.spi, t.reqid)
  }

  function TmplForms(s: seq<RawTmpl>): (r: seq<Xfrm.Tmpl>)
    ensures |r| == |s| && forall i :: 0 <= i < |s| ==> r[i] == TmplForm(s[i])
  {
    seq(|s|, i requires 0 <= i < |s| => TmplForm(s[i]))
  }

  function PolicyForm(p: RawPolicy): PolicyOf<Option<ByteNet>, Option<IP>> {
    PolicyOf.Policy(NetForm(p.dst), NetForm(p.src), p.proto, p.dstPort, p.srcPort, p.dir, p.priority, p.index, p.mark,
                    TmplForms(p.tmpls))
  }

  /** What `xfrmPolicyMatches` looks at. */
  datatype SelectorForm = SelectorForm(dst: Option<ByteNet>, src: Option<ByteNet>, proto: nat, dstPort: nat,
                                       srcPort: nat, dir: Dir)

  function SelectorOf(p: RawPolicy): SelectorForm {
    SelectorForm(NetForm(p.dst), NetForm(p.src), p.proto, p.dstPort, p.srcPort, p.dir)
  }

  function EncapForm(e: Option<Encap<RawIp>>): Option<Encap<Option<IP>>> {
    if e.None? then None else
      Some(Encap(e.value.kind, e.value.srcPort, e.value.dstPort, LooseForm(e.value.originalAddress)))
  }

  function StateForm(s: RawState): Xfrm.State {
    State.State(LooseForm(s.src), LooseForm(s.dst), s.proto, s.mode, s.spi, s.reqid, s.replayWindow, s.limits, s.mark,
                s.auth, s.crypt, s.aead, EncapForm(s.encap))
  }

  lemma TmplEqualIsFormEquality(l: RawTmpl, r: RawTmpl)
    ensures TmplEqual(l, r) <==> TmplForm(l) == TmplForm(r)
  {
    hide GoEqual, LooseForm;
    GoEqualIsFormEquality(l.dst, r.dst);
    GoEqualIsFormEquality(l.src, r.src);
  }

  /** The loop over the templates. */
  method TmplsEqual(l: seq<RawTmpl>, r: seq<RawTmpl>) returns (eq: bool)
    ensures eq <==> TmplForms(l) == TmplForms(r)
  {
    hide TmplEqual, TmplForm;
    if |l| != |r| {
      assert |TmplForms(l)| != |TmplForms(r)|;
      return false;
    }
    for i := 0 to |l|
      invariant forall j :: 0 <= j < i ==> TmplForm(l[j]) == TmplForm(r[j])
    {
      TmplEqualIsFormEquality(l[i], r[i]);
      if !TmplEqual(l[i], r[i]) {
        assert TmplForms(l)[i] != TmplForms(r)[i];
        return false;
      }
    }
    eq := true;
  }

  /** `xfrmPolicyEqual` compares canonical forms, templates in order. */
  method PolicyEqual(l: RawPolicy, r: RawPolicy) returns (eq: bool)
    ensures eq <==> PolicyForm(l) == PolicyForm(r)
  {
    hide IpnetEqual, NetForm, TmplForms;
    IpnetEqualIsFormEquality(l.dst, r.dst);
    IpnetEqualIsFormEquality(l.src, r.src);
    if !HeadEqual(l, r) {
      return false;
    }
    eq := TmplsEqual(l.tmpls, r.tmpls);
  }

  /** `xfrmPolicyMatches` compares selectors in canonical form. */
  lemma MatchesIsSelectorEquality(a: RawPolicy, e: RawPolicy)
    ensures PolicyMatches(a, e) <==> SelectorOf(a) == SelectorOf(e)
  {
    hide IpnetEqual, NetForm;
    IpnetEqualIsFormEquality(a.dst, e.dst);
    IpnetEqualIsFormEquality(a.src, e.src);
  }

  /** Equal policies match, so an update never pairs a policy with one of another selector. */
  lemma EqualPoliciesMatch(l: RawPolicy, r: RawPolicy)
    requires PolicyForm(l) == PolicyForm(r)
    ensures PolicyMatches(l, r)
  {
    hide IpnetEqual, NetForm, TmplForms;
    MatchesIsSelectorEquality(l, r);
  }

  /** `xfrmStateEqual` compares canonical forms. */
  lemma StateEqualIsFormEquality(l: RawState, r: RawState)
    ensures StateEqual(l, r) <==> StateForm(l) == StateForm(r)
  {
    hide GoEqual, LooseForm;
    GoEqualIsFormEquality(l.dst, r.dst);
    GoEqualIsFormEquality(l.src, r.src);
    if l.encap.Some? && r.encap.Some? {
      GoEqualIsFormEquality(l.encap.value.originalAddress, r.encap.value.originalAddress);
    }
  }
}
