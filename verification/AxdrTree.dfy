// Nested A-XDR values and what the flat scanner makes of their encodings.
module AxdrTree {
  import opened Memory
  import opened PacketArray
  import opened Ber
  import opened Axdr

  // A value; form says on how many octets its length is written beside the first.
  datatype Data =
    | Simple(tag: Octet, body: seq<Octet>)
    | Text(tag: Octet, form: nat, body: seq<Octet>)
    | Bits(form: nat, count: nat, body: seq<Octet>)
    | Group(tag: Octet, form: nat, items: seq<Data>)

  // ----- encoding -----

  predicate LenOk(form: nat, n: nat)
  {
    (form == 0 && n < 0x80) || (form == 1 && n < 0x100) || (form == 2 && n < 0x1_0000)
  }

  function EncodeLen(form: nat, n: nat): (s: seq<Octet>)
    requires LenOk(form, n)
    ensures |s| == 1 + form
  {
    if form == 0 then [n] else if form == 1 then [0x81, n] else [0x82, n / 0x100, n % 0x100]
  }

  lemma EncodedLenReads(form: nat, n: nat, rest: seq<Octet>)
    requires LenOk(form, n)
    ensures ReadLenOf(EncodeLen(form, n) + rest) == Length(n, 1 + form, true)
  {
    var s := EncodeLen(form, n) + rest;
    assert s[0] == EncodeLen(form, n)[0];
    if form > 0 {
      assert s[1] == EncodeLen(form, n)[1];
    }
    if form == 2 {
      assert s[2] == EncodeLen(form, n)[2];
      assert Be16(n / 0x100, n % 0x100) == n;
    }
  }

  // A length is read exactly when one of the three forms of one stands there whole.
  lemma ReadLenExact(s: seq<Octet>)
    ensures ReadLenOf(s).ok <==> exists form: nat, n: nat :: LenOk(form, n) && EncodeLen(form, n) <= s
    ensures forall form: nat, n: nat :: LenOk(form, n) && EncodeLen(form, n) <= s ==>
              ReadLenOf(s) == Length(n, 1 + form, true)
  {
    hide ReadLenOf, EncodeLen, LenOk;
    forall form: nat, n: nat | LenOk(form, n) && EncodeLen(form, n) <= s
      ensures ReadLenOf(s) == Length(n, 1 + form, true)
    {
      var e := EncodeLen(form, n);
      assert s == e + s[|e|..];
      EncodedLenReads(form, n, s[|e|..]);
    }
    if ReadLenOf(s).ok {
      ReadLenForm(s);
    }
  }

  lemma ReadLenForm(s: seq<Octet>)
    requires ReadLenOf(s).ok
    ensures exists form: nat :: LenOk(form, ReadLenOf(s).value) && EncodeLen(form, ReadLenOf(s).value) <= s
  {
    var n, form := ReadLenOf(s).value, ReadLenOf(s).taken - 1;
    if form == 2 {
      ByteParts(s[1], s[2]);
      assert s == [s[0], s[1], s[2]] + s[3..];
    } else if form == 1 {
      assert s == [s[0], s[1]] + s[2..];
    } else {
      assert s == [s[0]] + s[1..];
    }
    assert LenOk(form, n) && EncodeLen(form, n) <= s;
  }

  lemma ByteParts(hi: Octet, lo: Octet)
    ensures Be16(hi, lo) / 0x100 == hi && Be16(hi, lo) % 0x100 == lo && 0 <= Be16(hi, lo) < 0x1_0000
  {}

  lemma ThenEnds(call: Call, s: seq<Octet>, at: nat, n: nat)
    requires 0 < |s| <= n
    ensures Then(call, s, at, n) == ([call], false)
  {
    assert Past(s, n) == [];
    ScanNothing(at + n);
    assert [call] + [] == [call];
  }

  // A value that is cut short in its body is reported whole and without an error, a tag of no
  // kind is an error, and so is a length beyond the end of the input.
  lemma CutShort(tag: Octet, rest: seq<Octet>, at: nat)
    ensures KindOf(tag).Fixed? && |rest| < KindOf(tag).size ==>
              Scan([tag] + rest, at) == ([Call(tag, KindOf(tag).size, at + 1)], false)
    ensures KindOf(tag) == Unknown ==> Scan([tag] + rest, at) == ([], true)
    ensures !KindOf(tag).Fixed? && KindOf(tag) != Unknown && ReadLenOf(rest).value > |rest| - ReadLenOf(rest).taken ==>
              Scan([tag] + rest, at) == ([Call(tag, SIZE_CODED, at + 1 + ReadLenOf(rest).taken)], true)
  {
    hide Scan, KindOf;
    var s := [tag] + rest;
    assert s[0] == tag && s[1..] == rest;
    ScanHead(s, at);
    if KindOf(tag).Fixed? && |rest| < KindOf(tag).size {
      var n := 1 + KindOf(tag).size;
      var call := Call(tag, KindOf(tag).size, at + 1);
      ThenEnds(call, s, at, n);
    }
  }

  predicate WellFormed(d: Data)
  {
    match d
    case Simple(tag, body) => KindOf(tag) == Fixed(|body|)
    case Text(tag, form, body) => KindOf(tag) == Kind.Text && LenOk(form, |body|)
    case Bits(form, count, body) => LenOk(form, count) && |body| == if count > 0 then BitfieldBytes(count) else 0
    case Group(tag, form, items) => KindOf(tag) == Kind.Group && LenOk(form, |items|) && AllWellFormed(items)
  }

  predicate AllWellFormed(ds: seq<Data>)
  {
    forall i :: 0 <= i < |ds| ==> WellFormed(ds[i])
  }

  lemma Parts(ds: seq<Data>)
    requires AllWellFormed(ds) && ds != []
    ensures WellFormed(ds[0]) && AllWellFormed(ds[1..])
  {}

  lemma Joined(a: seq<Data>, b: seq<Data>)
    requires AllWellFormed(a) && AllWellFormed(b)
    ensures AllWellFormed(a + b)
  {}

  // Tag and length, if there is one.
  function Header(d: Data): (s: seq<Octet>)
    requires WellFormed(d)
    ensures |s| >= 1
  {
    match d
    case Simple(tag, _) => [tag]
    case Text(tag, form, body) => [tag] + EncodeLen(form, |body|)
    case Bits(form, count, _) => [4] + EncodeLen(form, count)
    case Group(tag, form, items) => [tag] + EncodeLen(form, |items|)
  }

  function Encode(d: Data): (s: seq<Octet>)
    requires WellFormed(d)
    ensures |s| >= 1
    decreases d, 0
  {
    Header(d) + if d.Group? then EncodeAll(d.items) else d.body
  }

  function EncodeAll(ds: seq<Data>): (s: seq<Octet>)
    requires AllWellFormed(ds)
    ensures |s| >= |ds|
    decreases ds, 1
  {
    if ds == [] then [] else Encode(ds[0]) + EncodeAll(ds[1..])
  }

  lemma {:induction false} EncodeAppend(a: seq<Data>, b: seq<Data>)
    requires AllWellFormed(a) && AllWellFormed(b)
    ensures AllWellFormed(a + b) && EncodeAll(a + b) == EncodeAll(a) + EncodeAll(b)
    decreases |a|
  {
    hide Encode, WellFormed, AllWellFormed;
    Joined(a, b);
    if a == [] {
      assert a + b == b;
    } else {
      Parts(a);
      Parts(a + b);
      assert (a + b)[0] == a[0] && (a + b)[1..] == a[1..] + b;
      EncodeAppend(a[1..], b);
    }
  }

  // ----- the calls a reader expects -----

  // The size reported for a value.
  function SizeOf(d: Data): nat
  {
    match d
    case Simple(_, body) => |body|
    case Text(_, _, body) => |body|
    case Bits(_, count, _) => count
    case Group(_, _, items) => |items|
  }

  function TagOf(d: Data): Octet
  {
    if d.Bits? then 4 else d.tag
  }

  // The values of a tree in preorder, each with its tag, its size and where its body starts.
  function Preorder(d: Data, at: nat): seq<Call>
    requires WellFormed(d)
    decreases d, 0
  {
    var body := at + |Header(d)|;
    [Call(TagOf(d), SizeOf(d), body)] + if d.Group? then PreorderAll(d.items, body) else []
  }

  function PreorderAll(ds: seq<Data>, at: nat): seq<Call>
    requires AllWellFormed(ds)
    decreases ds, 1
  {
    if ds == [] then [] else Preorder(ds[0], at) + PreorderAll(ds[1..], at + |Encode(ds[0])|)
  }

  lemma {:induction false} PreorderAppend(a: seq<Data>, b: seq<Data>, at: nat)
    requires AllWellFormed(a) && AllWellFormed(b)
    ensures AllWellFormed(a + b)
    ensures PreorderAll(a + b, at) == PreorderAll(a, at) + PreorderAll(b, at + |EncodeAll(a)|)
    decreases |a|
  {
    hide Preorder, Encode, WellFormed, AllWellFormed;
    Joined(a, b);
    if a == [] {
      assert a + b == b;
    } else {
      Parts(a);
      Parts(a + b);
      assert (a + b)[0] == a[0] && (a + b)[1..] == a[1..] + b;
      PreorderAppend(a[1..], b, at + |Encode(a[0])|);
    }
  }

  // ----- the scanner's condition -----

  // No bit string has more bits than there are octets from its body to the end of the input:
  // the scanner compares the two numbers although they count different things.
  predicate Fits(d: Data, after: nat)
    requires WellFormed(d)
    decreases d, 0
  {
    match d
    case Bits(_, count, body) => count <= |body| + after
    case Group(_, _, items) => AllFit(items, after)
    case _ => true
  }

  predicate AllFit(ds: seq<Data>, after: nat)
    requires AllWellFormed(ds)
    decreases ds, 1
  {
    ds == [] || (Fits(ds[0], |EncodeAll(ds[1..])| + after) && AllFit(ds[1..], after))
  }

  lemma {:induction false} FitAppend(a: seq<Data>, b: seq<Data>, after: nat)
    requires AllWellFormed(a) && AllWellFormed(b)
    ensures AllWellFormed(a + b)
    ensures AllFit(a + b, after) <==> AllFit(a, |EncodeAll(b)| + after) && AllFit(b, after)
    decreases |a|
  {
    hide Fits, Encode, WellFormed, AllWellFormed;
    Joined(a, b);
    if a == [] {
      assert a + b == b;
    } else {
      Parts(a);
      Parts(a + b);
      assert (a + b)[0] == a[0] && (a + b)[1..] == a[1..] + b;
      EncodeAppend(a[1..], b);
      FitAppend(a[1..], b, after);
    }
  }

  // ----- the main result -----

  // The values still to be scanned once the head is: its items come first.
  function Todo(ds: seq<Data>): seq<Data>
    requires ds != []
  {
    Items(ds[0]) + ds[1..]
  }

  // The body of a value that has no items.
  function Body(d: Data): seq<Octet>
  {
    if d.Group? then [] else d.body
  }

  function Items(d: Data): seq<Data>
  {
    if d.Group? then d.items else []
  }

  // A value is its header, its body and its items.
  lemma Unfold(d: Data, at: nat, after: nat)
    requires WellFormed(d)
    ensures AllWellFormed(Items(d))
    ensures Encode(d) == Header(d) + Body(d) + EncodeAll(Items(d))
    ensures Preorder(d, at)
            == [Call(TagOf(d), SizeOf(d), at + |Header(d)|)] + PreorderAll(Items(d), at + |Header(d)| + |Body(d)|)
    ensures Fits(d, after) <==> (d.Bits? ==> d.count <= |Body(d)| + after) && AllFit(Items(d), after)
  {
    hide Header;
  }

  // The head of the list, and the rest: in the encoding, in the preorder and in the condition.
  lemma HeadEncodes(ds: seq<Data>)
    requires AllWellFormed(ds) && ds != []
    ensures WellFormed(ds[0]) && AllWellFormed(Todo(ds)) && AllWellFormed(ds[1..]) && AllWellFormed(Items(ds[0]))
    ensures EncodeAll(Todo(ds)) == EncodeAll(Items(ds[0])) + EncodeAll(ds[1..])
    ensures EncodeAll(ds) == Header(ds[0]) + Body(ds[0]) + EncodeAll(Todo(ds))
  {
    hide Header, Body, Encode, EncodeAll, Items, WellFormed, AllWellFormed;
    Parts(ds);
    Unfold(ds[0], 0, 0);
    EncodeAppend(Items(ds[0]), ds[1..]);
    EncodeCons(ds);
    Associative(Header(ds[0]) + Body(ds[0]), EncodeAll(Items(ds[0])), EncodeAll(ds[1..]));
  }

  lemma EncodeCons(ds: seq<Data>)
    requires AllWellFormed(ds) && ds != []
    ensures EncodeAll(ds) == Encode(ds[0]) + EncodeAll(ds[1..])
  {}

  lemma HeadOrder(ds: seq<Data>, at: nat)
    requires AllWellFormed(ds) && ds != []
    ensures WellFormed(ds[0]) && AllWellFormed(Todo(ds))
    ensures var d, todo := ds[0], Todo(ds);
            PreorderAll(ds, at)
            == [Call(TagOf(d), SizeOf(d), at + |Header(d)|)] + PreorderAll(todo, at + |Header(d)| + |Body(d)|)
  {
    hide Header, Body, Preorder, Encode, EncodeAll, WellFormed, AllWellFormed;
    var d := ds[0];
    HeadEncodes(ds);
    Unfold(d, at, 0);
    var body := at + |Header(d)| + |Body(d)|;
    PreorderAppend(Items(d), ds[1..], body);
    var head := [Call(TagOf(d), SizeOf(d), at + |Header(d)|)];
    Associative(head, PreorderAll(Items(d), body), PreorderAll(ds[1..], body + |EncodeAll(Items(d))|));
  }

  lemma HeadFits(ds: seq<Data>)
    requires AllWellFormed(ds) && ds != []
    ensures WellFormed(ds[0]) && AllWellFormed(Todo(ds))
    ensures var d, todo := ds[0], Todo(ds);
            AllFit(ds, 0) <==> (d.Bits? ==> d.count <= |Body(d)| + |EncodeAll(todo)|) && AllFit(todo, 0)
  {
    hide Fits, AllFit, Encode, EncodeAll, Preorder, PreorderAll, Header, Body, WellFormed, AllWellFormed;
    HeadEncodes(ds);
    FitCons(ds);
    Unfold(ds[0], 0, |EncodeAll(ds[1..])|);
    FitAppend(Items(ds[0]), ds[1..], 0);
    if ds[0].Bits? {
      NoItems();
    }
  }

  lemma FitCons(ds: seq<Data>)
    requires AllWellFormed(ds) && ds != []
    ensures AllFit(ds, 0) <==> Fits(ds[0], |EncodeAll(ds[1..])|) && AllFit(ds[1..], 0)
  {}

  lemma NoItems()
    ensures AllWellFormed([]) && EncodeAll([]) == []
  {}

  lemma LaidOut(tag: Octet, len: seq<Octet>, r: seq<Octet>)
    ensures var s := [tag] + len + r; s[0] == tag && s[1..] == len + r && s[1 + |len|..] == r
  {}

  // The scanner's step on a tag and a length.
  lemma ScanCoded(tag: Octet, form: nat, count: nat, r: seq<Octet>, at: nat)
    requires KindOf(tag).Text? || KindOf(tag).Bits? || KindOf(tag).Group?
    requires LenOk(form, count)
    ensures var s := [tag] + EncodeLen(form, count) + r;
            var body, skip := 2 + form, Skipped(KindOf(tag), count);
            Scan(s, at) ==
              if count > |r| then ([Call(tag, SIZE_CODED, at + body)], true)
              else
                var next := Scan(Past(r, skip), at + body + skip);
                ([Call(tag, count, at + body)] + next.0, next.1)
  {
    hide Scan, KindOf, ReadLenOf, EncodeLen, Skipped;
    var len, body, skip := EncodeLen(form, count), 2 + form, Skipped(KindOf(tag), count);
    var s := [tag] + len + r;
    LaidOut(tag, len, r);
    EncodedLenReads(form, count, r);
    ScanHead(s, at);
    PastTwice(s, body, skip);
  }

  lemma PastBody(b: seq<Octet>, t: seq<Octet>)
    ensures Past(b + t, |b|) == t
  {}

  lemma ScanSimple(d: Data, t: seq<Octet>, at: nat)
    requires WellFormed(d) && d.Simple?
    ensures var here, next := Scan([d.tag] + d.body + t, at), Scan(t, at + 1 + |d.body|);
            here == ([Call(d.tag, |d.body|, at + 1)] + next.0, next.1)
  {
    hide Scan, KindOf, ReadLenOf;
    var s := [d.tag] + d.body + t;
    assert s[0] == d.tag && s[1 + |d.body|..] == t;
    ScanHead(s, at);
  }

  // The scanner's step on the header and body of a value.
  lemma ScanOne(d: Data, t: seq<Octet>, at: nat)
    requires WellFormed(d) && (d.Group? ==> |d.items| <= |t|)
    ensures var here := Scan(Header(d) + Body(d) + t, at);
            if d.Bits? && d.count > |Body(d)| + |t| then here.1
            else
              var next := Scan(t, at + |Header(d)| + |Body(d)|);
              here == ([Call(TagOf(d), SizeOf(d), at + |Header(d)|)] + next.0, next.1)
  {
    hide Scan, KindOf, EncodeLen, BitfieldBytes, Past, LenOk, AllWellFormed;
    BitsTag(4);
    if d.Simple? {
      ScanSimple(d, t, at);
    } else {
      var r := Body(d) + t;
      ScanCoded(TagOf(d), d.form, SizeOf(d), r, at);
      PastBody(Body(d), t);
      Associative(Header(d), Body(d), t);
    }
  }

  // Main result: on the encoding of any values, the flat loop ends without an error exactly
  // when every bit string fits, and then it has reported the preorder of the trees.
  lemma {:induction false} ScanIsPreorder(ds: seq<Data>, at: nat)
    requires AllWellFormed(ds)
    ensures var r := Scan(EncodeAll(ds), at);
            && (r.1 <==> !AllFit(ds, 0))
            && (AllFit(ds, 0) ==> r.0 == PreorderAll(ds, at))
    decreases |EncodeAll(ds)|
  {
    hide Scan, Header, Body, WellFormed, AllWellFormed;
    if ds == [] {
      ScanNothing(at);
    } else {
      var d, todo := ds[0], Todo(ds);
      HeadEncodes(ds);
      HeadOrder(ds, at);
      HeadFits(ds);
      hide EncodeAll, PreorderAll, AllFit;
      ScanOne(d, EncodeAll(todo), at);
      ScanIsPreorder(todo, at + |Header(d)| + |Body(d)|);
    }
  }

  // A bit string of 16 bits at the end of the input is refused.
  lemma BitStringRefused(hi: Octet, lo: Octet)
    ensures var d := Data.Bits(0, 16, [hi, lo]);
            WellFormed(d) && Encode(d) == [4, 16, hi, lo] && Scan(Encode(d), 0) == ([Call(4, SIZE_CODED, 2)], true)
  {
    var d := Data.Bits(0, 16, [hi, lo]);
    var s: seq<Octet> := [4, 16, hi, lo];
    assert s[1..] == [16, hi, lo];
    ScanHead(s, 0);
  }

  // ----- the value quoted in the source -----

  // A selective access by range: an object, two dates and an empty array.
  const QUOTED_OBJECT: seq<Data> := [
    Data.Simple(18, [0, 8]), Data.Text(9, 0, [0, 0, 1, 0, 0, 0xff]), Data.Simple(15, [2]), Data.Simple(18, [0, 0])]

  const START: seq<Octet> := [0x07, 0xe1, 0x08, 0x01, 0x07, 0, 0, 0, 0xff, 0xff, 0xc4, 0]
  const END: seq<Octet> := [0x07, 0xe1, 0x0b, 0x01, 0x07, 0, 0, 0, 0xff, 0xff, 0xc4, 0]

  function QuotedValue(): Data
  {
    Data.Group(2, 0, [Data.Group(2, 0, QUOTED_OBJECT), Data.Text(9, 0, START), Data.Text(9, 0, END),
                      Data.Group(1, 0, [])])
  }

  const QUOTED_OCTETS: seq<Octet> :=
    [2, 4, 2, 4, 0x12, 0, 8, 9, 6, 0, 0, 1, 0, 0, 0xff, 0x0f, 2, 0x12, 0, 0]
    + ([9, 12] + START) + ([9, 12] + END) + [1, 0]

  // A value in front of others.
  lemma InFront(d: Data, rest: seq<Data>, at: nat, after: nat)
    requires WellFormed(d) && AllWellFormed(rest)
    ensures AllWellFormed([d] + rest)
    ensures EncodeAll([d] + rest) == Encode(d) + EncodeAll(rest)
    ensures PreorderAll([d] + rest, at) == Preorder(d, at) + PreorderAll(rest, at + |Encode(d)|)
    ensures AllFit([d] + rest, after) <==> Fits(d, |EncodeAll(rest)| + after) && AllFit(rest, after)
  {
    hide Encode, Preorder, Fits, WellFormed;
    assert ([d] + rest)[1..] == rest;
  }

  lemma FourItems(a: Data, b: Data, c: Data, d: Data, at: nat, after: nat)
    requires WellFormed(a) && WellFormed(b) && WellFormed(c) && WellFormed(d)
    ensures var ds, e := [a, b, c, d], at + |Encode(a)| + |Encode(b)|;
            && AllWellFormed(ds)
            && EncodeAll(ds) == Encode(a) + (Encode(b) + (Encode(c) + Encode(d)))
            && PreorderAll(ds, at)
               == Preorder(a, at) + (Preorder(b, at + |Encode(a)|) + (Preorder(c, e) + Preorder(d, e + |Encode(c)|)))
            && (AllFit(ds, after) <==>
                  && Fits(a, |Encode(b)| + |Encode(c)| + |Encode(d)| + after)
                  && Fits(b, |Encode(c)| + |Encode(d)| + after) && Fits(c, |Encode(d)| + after) && Fits(d, after))
  {
    hide Encode, Preorder, Fits, WellFormed;
    var e := at + |Encode(a)| + |Encode(b)|;
    OneItem(d, e + |Encode(c)|, after);
    InFront(c, [d], e, after);
    assert [c] + [d] == [c, d] && [b] + [c, d] == [b, c, d] && [a] + [b, c, d] == [a, b, c, d];
    InFront(b, [c, d], at + |Encode(a)|, after);
    InFront(a, [b, c, d], at, after);
  }

  lemma OneItem(d: Data, at: nat, after: nat)
    requires WellFormed(d)
    ensures AllWellFormed([d]) && EncodeAll([d]) == Encode(d) && PreorderAll([d], at) == Preorder(d, at)
    ensures AllFit([d], after) <==> Fits(d, after)
  {
    hide Encode, Preorder, Fits, WellFormed;
    InFront(d, [], at, after);
    assert [d] + [] == [d];
    assert Encode(d) + [] == Encode(d) && Preorder(d, at) + [] == Preorder(d, at);
  }

  // Its four parts.
  lemma PartsEncode()
    ensures var thing, start, end, none :=
              Data.Group(2, 0, QUOTED_OBJECT), Data.Text(9, 0, START), Data.Text(9, 0, END), Data.Group(1, 0, []);
            && WellFormed(thing) && WellFormed(start) && WellFormed(end) && WellFormed(none)
            && Encode(thing) == [2, 4, 0x12, 0, 8, 9, 6, 0, 0, 1, 0, 0, 0xff, 0x0f, 2, 0x12, 0, 0]
            && Encode(start) == [9, 12] + START && Encode(end) == [9, 12] + END && Encode(none) == [1, 0]
            && Preorder(thing, 2) == [Call(2, 4, 4), Call(18, 2, 5), Call(9, 6, 9), Call(15, 1, 16), Call(18, 2, 18)]
            && Preorder(start, 20) == [Call(9, 12, 22)] && Preorder(end, 34) == [Call(9, 12, 36)]
            && Preorder(none, 48) == [Call(1, 0, 50)]
            && Fits(thing, 30) && Fits(start, 16) && Fits(end, 2) && Fits(none, 0)
  {
    hide EncodeAll, PreorderAll, Encode, Preorder, Fits, AllFit, WellFormed, QUOTED_OBJECT;
    ObjectEncodes();
    GroupParts(2, QUOTED_OBJECT, 2, 30);
    TextParts(START, 20, 16);
    TextParts(END, 34, 2);
    EmptyGroup();
    GroupParts(1, [], 48, 0);
    assert [2, 4] + [0x12, 0, 8, 9, 6, 0, 0, 1, 0, 0, 0xff, 0x0f, 2, 0x12, 0, 0]
           == [2, 4, 0x12, 0, 8, 9, 6, 0, 0, 1, 0, 0, 0xff, 0x0f, 2, 0x12, 0, 0];
    assert [Call(2, 4, 4)] + [Call(18, 2, 5), Call(9, 6, 9), Call(15, 1, 16), Call(18, 2, 18)]
           == [Call(2, 4, 4), Call(18, 2, 5), Call(9, 6, 9), Call(15, 1, 16), Call(18, 2, 18)];
  }

  lemma GroupParts(tag: Octet, ds: seq<Data>, at: nat, after: nat)
    requires (tag == 1 || tag == 2) && |ds| < 0x80 && AllWellFormed(ds)
    ensures var d := Data.Group(tag, 0, ds);
            && WellFormed(d) && Encode(d) == [tag, |ds|] + EncodeAll(ds)
            && Preorder(d, at) == [Call(tag, |ds|, at + 2)] + PreorderAll(ds, at + 2)
            && (Fits(d, after) <==> AllFit(ds, after))
  {
    hide EncodeAll, PreorderAll, AllFit;
  }

  lemma TextParts(body: seq<Octet>, at: nat, after: nat)
    requires |body| < 0x80
    ensures var d := Data.Text(9, 0, body);
            && WellFormed(d) && Encode(d) == [9, |body|] + body
            && Preorder(d, at) == [Call(9, |body|, at + 2)] && Fits(d, after)
  {}

  lemma EmptyGroup()
    ensures EncodeAll([]) == [] && AllFit([], 0) && PreorderAll([], 50) == [] && AllWellFormed([])
  {}

  // The scanner reports its nine values, each with its size and its place.
  lemma QuotedIsScanned()
    ensures WellFormed(QuotedValue()) && Encode(QuotedValue()) == QUOTED_OCTETS
    ensures Scan(QUOTED_OCTETS, 0)
            == ([Call(2, 4, 2), Call(2, 4, 4), Call(18, 2, 5), Call(9, 6, 9), Call(15, 1, 16), Call(18, 2, 18),
                 Call(9, 12, 22), Call(9, 12, 36), Call(1, 0, 50)], false)
  {
    hide Scan, Encode, Preorder, Fits, WellFormed, EncodeAll, PreorderAll, AllFit, QUOTED_OBJECT;
    var thing, start, end, none := Data.Group(2, 0, QUOTED_OBJECT), Data.Text(9, 0, START), Data.Text(9, 0, END),
      Data.Group(1, 0, []);
    PartsEncode();
    FourItems(thing, start, end, none, 2, 0);
    WholeQuoted(thing, start, end, none);
    OctetsJoin(START, END);
    CallsJoin();
  }

  lemma CallsJoin()
    ensures [Call(2, 4, 2)]
            + ([Call(2, 4, 4), Call(18, 2, 5), Call(9, 6, 9), Call(15, 1, 16), Call(18, 2, 18)]
               + ([Call(9, 12, 22)] + ([Call(9, 12, 36)] + [Call(1, 0, 50)])))
            == [Call(2, 4, 2), Call(2, 4, 4), Call(18, 2, 5), Call(9, 6, 9), Call(15, 1, 16), Call(18, 2, 18),
                Call(9, 12, 22), Call(9, 12, 36), Call(1, 0, 50)]
  {}

  lemma OctetsJoin(s: seq<Octet>, e: seq<Octet>)
    ensures [2, 4] + ([2, 4, 0x12, 0, 8, 9, 6, 0, 0, 1, 0, 0, 0xff, 0x0f, 2, 0x12, 0, 0]
                      + (([9, 12] + s) + (([9, 12] + e) + [1, 0])))
            == [2, 4, 2, 4, 0x12, 0, 8, 9, 6, 0, 0, 1, 0, 0, 0xff, 0x0f, 2, 0x12, 0, 0]
               + ([9, 12] + s) + ([9, 12] + e) + [1, 0]
  {
    var h: seq<Octet>, g: seq<Octet> := [2, 4], [2, 4, 0x12, 0, 8, 9, 6, 0, 0, 1, 0, 0, 0xff, 0x0f, 2, 0x12, 0, 0];
    var x: seq<Octet>, y: seq<Octet>, z: seq<Octet> := [9, 12] + s, [9, 12] + e, [1, 0];
    Associative(h, g, x + (y + z));
    Associative(h + g, x, y + z);
    Associative(h + g + x, y, z);
    assert h + g == [2, 4, 2, 4, 0x12, 0, 8, 9, 6, 0, 0, 1, 0, 0, 0xff, 0x0f, 2, 0x12, 0, 0];
  }

  lemma WholeQuoted(a: Data, b: Data, c: Data, d: Data)
    requires WellFormed(a) && WellFormed(b) && WellFormed(c) && WellFormed(d)
    requires AllFit([a, b, c, d], 0)
    ensures var q := Data.Group(2, 0, [a, b, c, d]);
            && WellFormed(q)
            && Encode(q) == [2, 4] + EncodeAll([a, b, c, d])
            && Scan(Encode(q), 0) == ([Call(2, 4, 2)] + PreorderAll([a, b, c, d], 2), false)
  {
    hide EncodeAll, PreorderAll, Scan;
    var q := Data.Group(2, 0, [a, b, c, d]);
    assert WellFormed(q);
    ScanOneValue(q);
  }

  lemma ScanOneValue(q: Data)
    requires WellFormed(q) && Fits(q, 0)
    ensures Scan(Encode(q), 0) == (Preorder(q, 0), false)
  {
    hide Encode, Preorder, Scan, WellFormed, Fits, EncodeAll, PreorderAll, AllFit;
    OneItem(q, 0, 0);
    ScanIsPreorder([q], 0);
  }

  lemma ObjectEncodes()
    ensures |QUOTED_OBJECT| == 4 && AllWellFormed(QUOTED_OBJECT)
    ensures EncodeAll(QUOTED_OBJECT) == [0x12, 0, 8, 9, 6, 0, 0, 1, 0, 0, 0xff, 0x0f, 2, 0x12, 0, 0]
    ensures AllFit(QUOTED_OBJECT, 30)
    ensures PreorderAll(QUOTED_OBJECT, 4) == [Call(18, 2, 5), Call(9, 6, 9), Call(15, 1, 16), Call(18, 2, 18)]
  {
    hide Encode, Preorder, Fits, WellFormed, EncodeAll, PreorderAll, AllFit;
    var a, b, c, d := QUOTED_OBJECT[0], QUOTED_OBJECT[1], QUOTED_OBJECT[2], QUOTED_OBJECT[3];
    SimpleParts(18, [0, 8], 4, 43);
    TextParts([0, 0, 1, 0, 0, 0xff], 7, 35);
    SimpleParts(15, [2], 15, 33);
    SimpleParts(18, [0, 0], 17, 30);
    FourItems(a, b, c, d, 4, 30);
    assert QUOTED_OBJECT == [a, b, c, d];
  }

  lemma SimpleParts(tag: Octet, body: seq<Octet>, at: nat, after: nat)
    requires KindOf(tag) == Fixed(|body|)
    ensures var d := Data.Simple(tag, body);
            && WellFormed(d) && Encode(d) == [tag] + body
            && Preorder(d, at) == [Call(tag, |body|, at + 1)] && Fits(d, after)
  {}
}
