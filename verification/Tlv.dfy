// Tag-length-value trees with one-octet tags and lengths (sections 8.1.2 to 8.1.4 of X.690,
// short form): writing them and reading them back.
module Tlv {
  import opened Wrappers
  import opened PacketArray

  datatype Tree = Prim(tag: Octet, body: seq<Octet>) | Cons(tag: Octet, items: seq<Tree>)

  // Bit 6 of a tag tells whether the contents are values again.
  predicate Constructed(tag: Octet)
  {
    tag / 0x20 % 2 == 1
  }

  function Contents(t: Tree): seq<Octet>
    decreases t, 0
  {
    if t.Prim? then t.body else BytesAll(t.items)
  }

  // The length octet, whatever the length.
  function Bytes(t: Tree): seq<Octet>
    decreases t, 1
  {
    [t.tag, |Contents(t)| % 0x100] + Contents(t)
  }

  function BytesAll(ts: seq<Tree>): seq<Octet>
    decreases ts, 2
  {
    if ts == [] then [] else Bytes(ts[0]) + BytesAll(ts[1..])
  }

  // Trees whose every length fits the short form and whose tags tell their kind.
  predicate Sound(t: Tree)
    decreases t, 0
  {
    && |Contents(t)| < 0x80
    && (Constructed(t.tag) <==> t.Cons?)
    && (t.Cons? ==> AllSound(t.items))
  }

  predicate AllSound(ts: seq<Tree>)
    decreases ts, 1
  {
    ts == [] || (Sound(ts[0]) && AllSound(ts[1..]))
  }

  // The values a string is made of, if every length is short and ends within the string.
  function Parse(s: seq<Octet>): Option<seq<Tree>>
    decreases |s|
  {
    if s == [] then Some([])
    else if |s| < 2 || s[1] >= 0x80 || 2 + s[1] > |s| then None
    else
      var body, rest := s[2..2 + s[1]], Parse(s[2 + s[1]..]);
      if rest.None? then None
      else if !Constructed(s[0]) then Some([Prim(s[0], body)] + rest.value)
      else
        var items := Parse(body);
        if items.None? then None else Some([Cons(s[0], items.value)] + rest.value)
  }

  // A value in front of others.
  function Put(tag: Octet, body: seq<Octet>, rest: seq<Octet>): seq<Octet>
    requires |body| < 0x80
  {
    [tag, |body|] + body + rest
  }

  lemma Unfold(ts: seq<Tree>)
    requires AllSound(ts) && ts != []
    ensures |Contents(ts[0])| < 0x80
    ensures BytesAll(ts) == Put(ts[0].tag, Contents(ts[0]), BytesAll(ts[1..]))
  {
    hide Contents;
    assert Sound(ts[0]);
  }

  lemma ParsePut(tag: Octet, body: seq<Octet>, rest: seq<Octet>)
    requires |body| < 0x80 && Parse(rest).Some?
    requires Constructed(tag) ==> Parse(body).Some?
    ensures Parse(Put(tag, body, rest))
            == Some([if Constructed(tag) then Cons(tag, Parse(body).value) else Prim(tag, body)] + Parse(rest).value)
  {
    var s := Put(tag, body, rest);
    assert s[2..2 + |body|] == body && s[2 + |body|..] == rest;
  }

  // Main result: sound trees are read back from their octets.
  lemma {:induction false} ParseBytes(ts: seq<Tree>)
    requires AllSound(ts)
    ensures Parse(BytesAll(ts)) == Some(ts)
    decreases ts
  {
    hide Put, Constructed;
    if ts != [] {
      var t := ts[0];
      ParseBytes(ts[1..]);
      if t.Cons? {
        ParseBytes(t.items);
      }
      Unfold(ts);
      hide Parse, BytesAll;
      ParsePut(t.tag, Contents(t), BytesAll(ts[1..]));
      assert ts == [t] + ts[1..];
    }
  }
}
