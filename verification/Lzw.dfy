// The code table of the GIF decoder, and a reference decoder without one.
module Lzw {
  import opened Bits

  // A code stands for the expansion of its prefix and one more symbol;
  // prefix -1 for a single symbol.
  datatype Entry = Entry(prefix: int, first: Byte, suffix: Byte)
  type Table = seq<Entry>
  type Str = seq<Byte>

  const LIMIT := 8192

  // ---- the table -----------------------------------------------------------

  // Codes `clear` (start over) and `clear + 1` (end) have no entry.
  predicate Defined(clear: nat, avail: nat, c: nat) {
    c < clear || clear + 2 <= c < avail
  }

  // The prefix of an entry is -1 or a defined code below its own index, and
  // `first` is inherited.
  predicate EntryOk(codes: Table, clear: nat, avail: nat, c: nat) {
    c < |codes|
    && if c < clear then codes[c] == Entry(-1, c % 256, c % 256)
       else
         && 0 <= codes[c].prefix < c && Defined(clear, avail, codes[c].prefix) && codes[c].prefix < |codes|
         && codes[c].first == codes[codes[c].prefix].first
  }

  ghost predicate TableOk(codes: Table, clear: nat, avail: nat) {
    && 0 < clear && clear + 2 <= avail <= |codes|
    && (forall c: nat {:trigger EntryOk(codes, clear, avail, c)} ::
          Defined(clear, avail, c) ==> EntryOk(codes, clear, avail, c))
  }

  function Expand(codes: Table, c: nat): (s: Str)
    requires c < |codes|
    ensures s != []
    decreases c
  {
    if 0 <= codes[c].prefix < c then Expand(codes, codes[c].prefix) + [codes[c].suffix] else [codes[c].suffix]
  }

  // `first` is the first symbol of what the code stands for.
  lemma {:induction false} FirstIsFirst(codes: Table, clear: nat, avail: nat, c: nat)
    requires TableOk(codes, clear, avail) && Defined(clear, avail, c)
    ensures c < |codes| && Expand(codes, c)[0] == codes[c].first
    decreases c
  {
    assert EntryOk(codes, clear, avail, c);
    if c >= clear {
      FirstIsFirst(codes, clear, avail, codes[c].prefix);
    }
  }

  // Adding an entry does not change what the others stand for.
  lemma {:induction false} ExpandKept(codes: Table, clear: nat, avail: nat, e: Entry, c: nat)
    requires TableOk(codes, clear, avail) && avail < |codes| && Defined(clear, avail, c)
    ensures c < |codes| && Expand(codes[avail := e], c) == Expand(codes, c)
    decreases c
  {
    assert EntryOk(codes, clear, avail, c);
    if c >= clear {
      ExpandKept(codes, clear, avail, e, codes[c].prefix);
    }
  }

  // The entry made when `code` follows `prev`; `code` may be the new entry itself.
  function NewEntry(codes: Table, avail: nat, prev: nat, code: nat): Entry
    requires prev < |codes| && code < |codes|
  {
    Entry(prev, codes[prev].first, if code == avail then codes[prev].first else codes[code].first)
  }

  lemma AddEntry(codes: Table, clear: nat, avail: nat, prev: nat, code: nat)
    requires TableOk(codes, clear, avail) && avail < |codes|
    requires Defined(clear, avail, prev) && (Defined(clear, avail, code) || code == avail)
    ensures prev < |codes| && code < |codes|
    ensures var codes' := codes[avail := NewEntry(codes, avail, prev, code)];
            && TableOk(codes', clear, avail + 1)
            && Expand(codes', avail) == Expand(codes, prev) + [Expand(codes, if code == avail then prev else code)[0]]
  {
    hide Expand;
    FirstIsFirst(codes, clear, avail, prev);
    FirstIsFirst(codes, clear, avail, if code == avail then prev else code);
    var e := NewEntry(codes, avail, prev, code);
    var codes' := codes[avail := e];
    var next := avail + 1;
    forall c: nat | Defined(clear, next, c)
      ensures EntryOk(codes', clear, next, c)
    {
      if c != avail {
        assert EntryOk(codes, clear, avail, c);
      }
    }
    ExpandKept(codes, clear, avail, e, prev);
    ExpandAt(codes', avail);
  }

  lemma ExpandAt(codes: Table, c: nat)
    requires c < |codes| && 0 <= codes[c].prefix < c
    ensures Expand(codes, c) == Expand(codes, codes[c].prefix) + [codes[c].suffix]
  {
  }

  // ---- the reference decoder -----------------------------------------------

  // The phrases given out since the table was last cleared.
  datatype State = State(started: bool, size: nat, phrases: seq<Str>)
  datatype Error = NoClearCode | TooManyCodes | IllegalCode
  datatype Outcome = Next(state: State, text: Str) | End | Fail(error: Error)

  // The first code without an entry: each phrase but the first has added one.
  function Avail(clear: nat, ps: seq<Str>): nat {
    clear + 2 + if ps == [] then 0 else |ps| - 1
  }

  function First(s: Str): Str {
    if s == [] then [] else [s[0]]
  }

  // Code `clear + 2 + i` stands for phrase i and the first symbol of the phrase
  // after it, which may be the phrase being decoded.
  function Phrase(ps: seq<Str>, clear: nat, c: nat): Str
    requires c < clear || clear + 2 <= c < clear + 2 + |ps|
  {
    if c < clear then [c % 256]
    else
      var i := c - clear - 2;
      ps[i] + First(if i + 1 < |ps| then ps[i + 1] else ps[i])
  }

  // The code size grows when the table has filled it, up to 12 bits.
  function Grow(size: nat, avail: nat): nat {
    if Low(avail, size) == 0 && avail <= 0xFFF then size + 1 else size
  }

  function Step(minSize: nat, s: State, c: nat): Outcome {
    var clear := Pow2(minSize);
    var ps := s.phrases;
    if c == clear then Next(State(true, minSize + 1, []), [])
    else if c == clear + 1 then End
    else if c > Avail(clear, ps) then Fail(IllegalCode)
    else if !s.started then Fail(NoClearCode)
    else if ps == [] && c >= clear then Fail(IllegalCode)
    else if ps != [] && Avail(clear, ps) + 1 > LIMIT then Fail(TooManyCodes)
    else
      var ps' := ps + [Phrase(ps, clear, c)];
      Next(State(true, Grow(s.size, Avail(clear, ps')), ps'), Phrase(ps, clear, c))
  }

  // A code that is neither the clear nor the end code is refused before the first
  // clear code, when it is further ahead than the entry about to be made (none for the
  // first code after a clear code), and when that entry would be beyond 8192.
  lemma RefusedIff(minSize: nat, s: State, c: nat)
    requires c != Pow2(minSize) && c != Pow2(minSize) + 1
    ensures var clear, n := Pow2(minSize), |s.phrases|;
            Step(minSize, s, c).Fail? <==>
            !s.started || c > (if n == 0 then clear else clear + 1 + n) || (n > 0 && clear + 2 + n > 8192)
  {
    hide Pow2, Phrase, Grow;
  }

  // ---- the table stands for the phrases ------------------------------------

  ghost predicate Stands(codes: Table, clear: nat, avail: nat, prev: int, ps: seq<Str>) {
    && |codes| == LIMIT && TableOk(codes, clear, avail) && avail == Avail(clear, ps)
    && (forall i :: 0 <= i < |ps| ==> ps[i] != [])
    && (prev < 0 <==> ps == [])
    && (ps != [] ==> Defined(clear, avail, prev) && Expand(codes, prev) == ps[|ps| - 1])
    && (forall i :: 0 <= i < |ps| - 1 ==> Expand(codes, clear + 2 + i) == ps[i] + [ps[i + 1][0]])
  }

  // A defined code expands to the phrase it stands for.
  lemma ExpandIsPhrase(codes: Table, clear: nat, avail: nat, prev: int, ps: seq<Str>, c: nat)
    requires Stands(codes, clear, avail, prev, ps) && Defined(clear, avail, c)
    ensures c < |codes| && (c < clear || c < clear + 2 + |ps|) && Expand(codes, c) == Phrase(ps, clear, c)
  {
    assert EntryOk(codes, clear, avail, c);
    if c >= clear {
      var i := c - clear - 2;
      assert Expand(codes, clear + 2 + i) == ps[i] + [ps[i + 1][0]];
      hide Expand;
    }
  }

  // After a clear code the table stands for no phrases.
  lemma StandsAtStart(codes: Table, clear: nat)
    requires |codes| == LIMIT && 0 < clear && clear + 2 <= LIMIT
    requires forall c :: 0 <= c < clear ==> codes[c] == Entry(-1, c % 256, c % 256)
    ensures Stands(codes, clear, clear + 2, -1, [])
  {
  }

  lemma StandsForFirst(codes: Table, clear: nat, avail: nat, c: nat)
    requires Stands(codes, clear, avail, -1, []) && c < clear
    ensures Stands(codes, clear, avail, c, [Phrase([], clear, c)])
  {
    assert EntryOk(codes, clear, avail, c);
  }

  lemma StandsTable(codes: Table, clear: nat, avail: nat, prev: int, ps: seq<Str>)
    requires Stands(codes, clear, avail, prev, ps)
    ensures |codes| == LIMIT && clear + 2 <= avail <= LIMIT
  {
  }

  // One more code: the new entry makes the table stand for one more phrase.
  lemma StandsForNext(codes: Table, clear: nat, avail: nat, prev: nat, ps: seq<Str>, c: nat)
    requires Stands(codes, clear, avail, prev, ps) && avail < LIMIT && (Defined(clear, avail, c) || c == avail)
    ensures c < |codes| && prev < |codes| && ps != [] && (c < clear || clear + 2 <= c < clear + 2 + |ps|)
    ensures var codes' := codes[avail := NewEntry(codes, avail, prev, c)];
            && Stands(codes', clear, avail + 1, c, ps + [Phrase(ps, clear, c)])
            && Expand(codes', c) == Phrase(ps, clear, c)
  {
    StandsTable(codes, clear, avail, prev, ps);
    AddEntry(codes, clear, avail, prev, c);
    var e := NewEntry(codes, avail, prev, c);
    var codes', ps' := codes[avail := e], ps + [Phrase(ps, clear, c)];
    var last := ps[|ps| - 1];
    hide Expand, TableOk, NewEntry;
    if c == avail {
      assert Expand(codes', c) == last + [last[0]];
    } else {
      ExpandIsPhrase(codes, clear, avail, prev, ps, c);
      ExpandKept(codes, clear, avail, e, c);
    }
    assert Phrase(ps, clear, c)[0] == Expand(codes, if c == avail then prev else c)[0];
    forall i | 0 <= i < |ps'| - 1
      ensures Expand(codes', clear + 2 + i) == ps'[i] + [ps'[i + 1][0]]
    {
      if i < |ps| - 1 {
        ExpandKept(codes, clear, avail, e, clear + 2 + i);
        assert Expand(codes, clear + 2 + i) == ps[i] + [ps[i + 1][0]];
      }
    }
  }
}
