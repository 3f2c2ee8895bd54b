/** One archived record: its header layout, its sealed payload, and what reading it gives. */
module CheckpointRecord {
  import opened Wrappers
  import opened Bytes
  import opened FrameDelta

  const MAGIC: seq<byte> := [0x53, 0x4b, 0x54, 0x45, 0x52, 0x4d, 0x30, 0x31]
  const VERSION: byte := 2
  const NONCE_BYTES := 12
  const HEADER_BYTES := 8 + 1 + 8 + 8 + NONCE_BYTES

  datatype Error = InvalidHeader | AuthenticationFailed | InvalidPayload | InvalidOwner | NotOwner | InvalidName

  datatype Archived = Archived(generation: word, sequence: word, paint: seq<byte>, frame: Frame)

  // Big-endian words

  function BigEndian(n: nat, width: nat): (s: seq<byte>)
    ensures |s| == width
  {
    if width == 0 then [] else BigEndian(n / 256, width - 1) + [(n % 256) as byte]
  }

  function BigValue(s: seq<byte>): nat {
    if s == [] then 0 else 256 * BigValue(s[..|s| - 1]) + s[|s| - 1] as nat
  }

  lemma {:induction false} BigValueOf(n: nat, width: nat)
    requires n < Range(width)
    ensures BigValue(BigEndian(n, width)) == n
    decreases width
  {
    if width > 0 {
      BigValueOf(n / 256, width - 1);
      assert BigEndian(n, width)[..width - 1] == BigEndian(n / 256, width - 1);
    }
  }

  lemma {:induction false} BigValueInRange(s: seq<byte>)
    ensures BigValue(s) < Range(|s|)
    decreases |s|
  {
    if s != [] {
      BigValueInRange(s[..|s| - 1]);
    }
  }

  lemma RangeOf8()
    ensures Range(8) == 0x1_0000_0000_0000_0000
  {
    assert Range(4) == 0x1_0000_0000;
    assert Range(6) == 0x1_0000_0000_0000;
  }

  function WordBytes(n: word): (s: seq<byte>)
    ensures |s| == 8
  {
    BigEndian(n as nat, 8)
  }

  function WordOf(s: seq<byte>): word
    requires |s| == 8
  {
    BigValueInRange(s);
    RangeOf8();
    BigValue(s) as word
  }

  lemma WordRoundTrip(n: word)
    ensures WordOf(WordBytes(n)) == n
  {
    RangeOf8();
    BigValueOf(n as nat, 8);
  }

  // Names

  predicate ValidName(name: seq<byte>) {
    name != [] && forall b | b in name :: 0x61 <= b <= 0x7a || IsDigit(b) || b == 0x2d
  }

  /** Not empty, and without `/`, backslash and NUL. */
  predicate ValidCoordinate(name: seq<byte>) {
    name != [] && forall b | b in name :: b != 0x2f && b != 0x5c && b != 0
  }

  /** `soksak/terminal-checkpoint/v2`. */
  const AAD_PREFIX: seq<byte> :=
    [0x73, 0x6f, 0x6b, 0x73, 0x61, 0x6b, 0x2f, 0x74, 0x65, 0x72, 0x6d, 0x69, 0x6e, 0x61, 0x6c, 0x2d,
     0x63, 0x68, 0x65, 0x63, 0x6b, 0x70, 0x6f, 0x69, 0x6e, 0x74, 0x2f, 0x76, 0x32]

  /** The data a record is bound to: provider, window and pane. */
  function Aad(provider: seq<byte>, window: seq<byte>, pane: seq<byte>): seq<byte> {
    AAD_PREFIX + ([0] + (provider + ([0] + (window + ([0] + pane)))))
  }

  /** What a pane's file is named after. */
  function PathKey(window: seq<byte>, pane: seq<byte>): seq<byte> {
    window + ([0] + pane)
  }

  /** Different panes are bound to different data, and named after different keys. */
  lemma PanesAreApart(p: seq<byte>, v: seq<byte>, w: seq<byte>, q: seq<byte>, x: seq<byte>, y: seq<byte>)
    requires ValidName(p) && ValidName(q)
    requires ValidCoordinate(v) && ValidCoordinate(w) && ValidCoordinate(x) && ValidCoordinate(y)
    ensures Aad(p, v, w) == Aad(q, x, y) <==> p == q && v == x && w == y
    ensures PathKey(v, w) == PathKey(x, y) <==> v == x && w == y
  {
    if PathKey(v, w) == PathKey(x, y) {
      DelimitedIsDetermined(v, x, 0, w, y);
    }
    if Aad(p, v, w) == Aad(q, x, y) {
      var a, b := [0] + (p + ([0] + (v + ([0] + w)))), [0] + (q + ([0] + (x + ([0] + y))));
      assert Aad(p, v, w)[|AAD_PREFIX|..] == a && Aad(q, x, y)[|AAD_PREFIX|..] == b;
      assert a[1..] == p + ([0] + (v + ([0] + w))) && b[1..] == q + ([0] + (x + ([0] + y)));
      DelimitedIsDetermined(p, q, 0, v + ([0] + w), x + ([0] + y));
      DelimitedIsDetermined(v, x, 0, w, y);
    }
  }

  // Sealing

  /** Authenticated encryption and payload serialisation, as inverse pairs. */
  datatype Sealing = Sealing(
    seal: (seq<byte>, seq<byte>, seq<byte>) -> seq<byte>,
    open: (seq<byte>, seq<byte>, seq<byte>) -> Option<seq<byte>>,
    encode: (seq<byte>, Frame) -> seq<byte>,
    decode: seq<byte> -> Option<(seq<byte>, Frame)>)

  /** A sealed text opens under its own nonce and associated data, to what was sealed, and under no other
      associated data; a serialised payload parses to itself. */
  ghost predicate Sound(s: Sealing) {
    && (forall nonce, aad, text, other ::
          s.open(nonce, other, s.seal(nonce, aad, text)) == if other == aad then Some(text) else None)
    && (forall paint, frame :: s.decode(s.encode(paint, frame)) == Some((paint, frame)))
  }

  /** Header and ciphertext. */
  function RecordBytes(generation: word, sequence: word, nonce: seq<byte>, ciphertext: seq<byte>): seq<byte> {
    MAGIC + ([VERSION] + (WordBytes(generation) + (WordBytes(sequence) + (nonce + ciphertext))))
  }

  predicate HeaderHolds(bytes: seq<byte>) {
    |bytes| >= HEADER_BYTES && bytes[..8] == MAGIC && bytes[8] == VERSION
  }

  /** Generation and sequence of a committed file; none if the header is not ours. */
  function PositionOf(bytes: seq<byte>): Option<(word, word)> {
    if HeaderHolds(bytes) then Some((WordOf(bytes[9..17]), WordOf(bytes[17..25]))) else None
  }

  /** What a write puts into the file. */
  function Written(s: Sealing, aad: seq<byte>, generation: word, sequence: word, nonce: seq<byte>, paint: seq<byte>,
      frame: Frame): seq<byte> {
    RecordBytes(generation, sequence, nonce, s.seal(nonce, aad, s.encode(paint, frame)))
  }

  /** What reading the file gives. */
  function Read(s: Sealing, aad: seq<byte>, file: Option<seq<byte>>): Result<Option<Archived>, Error> {
    if file == None then Ok(None)
    else
      var bytes := file.value;
      if !HeaderHolds(bytes) then Err(InvalidHeader)
      else
        var text := s.open(bytes[25..HEADER_BYTES], aad, bytes[HEADER_BYTES..]);
        if text == None then Err(AuthenticationFailed)
        else
          var payload := s.decode(text.value);
          if payload == None then Err(InvalidPayload)
          else Ok(Some(Archived(WordOf(bytes[9..17]), WordOf(bytes[17..25]), payload.value.0, payload.value.1)))
  }

  /** Byte `k` of a big-endian number of `width` bytes. */
  function PlaceOf(n: nat, width: nat, k: nat): nat
    requires k < width
  {
    if k == width - 1 then n % 256 else PlaceOf(n / 256, width - 1, k)
  }

  lemma {:induction false} BigEndianPlaces(n: nat, width: nat, k: nat)
    requires k < width
    ensures BigEndian(n, width)[k] as nat == PlaceOf(n, width, k)
    decreases width
  {
    if k < width - 1 {
      BigEndianPlaces(n / 256, width - 1, k);
    }
  }

  /** `s` holds the number, its highest byte first. */
  predicate HoldsWord(s: seq<byte>, n: word) {
    |s| == 8 && forall k | 0 <= k < 8 :: s[k] as nat == PlaceOf(n as nat, 8, k)
  }

  lemma WordBytesHold(n: word)
    ensures HoldsWord(WordBytes(n), n)
  {
    forall k | 0 <= k < 8 ensures WordBytes(n)[k] as nat == PlaceOf(n as nat, 8, k) {
      BigEndianPlaces(n as nat, 8, k);
    }
  }

  /** The record as it lies in the file: the magic, the version, generation and sequence, 12 bytes of nonce, and the
      sealed payload to the end. */
  lemma RecordAsStored(generation: word, sequence: word, nonce: seq<byte>, ciphertext: seq<byte>)
    requires |nonce| == 12
    ensures var bytes := RecordBytes(generation, sequence, nonce, ciphertext);
            && |bytes| == 37 + |ciphertext|
            && bytes[..8] == Ascii("SKTERM01") && bytes[8] == 2
            && HoldsWord(bytes[9..17], generation) && HoldsWord(bytes[17..25], sequence)
            && bytes[25..37] == nonce && bytes[37..] == ciphertext
  {
    var bytes := RecordBytes(generation, sequence, nonce, ciphertext);
    RecordLayout(generation, sequence, nonce, ciphertext);
    assert MAGIC == Ascii("SKTERM01");
    WordBytesHold(generation);
    WordBytesHold(sequence);
    assert bytes[9..17] == WordBytes(generation) && bytes[17..25] == WordBytes(sequence);
  }

  /** What reading refuses, and why: a file too short for the header, or of another magic or version; a payload that
      does not open for this pane; one that does not parse. Anything else is read, under the numbers in its header. */
  lemma ReadExactly(s: Sealing, aad: seq<byte>, bytes: seq<byte>)
    ensures var r := Read(s, aad, Some(bytes));
            var ours := |bytes| >= 37 && bytes[..8] == Ascii("SKTERM01") && bytes[8] == 2;
            && (r == Err(InvalidHeader) <==> !ours)
            && (ours ==>
                 var text := s.open(bytes[25..37], aad, bytes[37..]);
                 && (r == Err(AuthenticationFailed) <==> text == None)
                 && (r == Err(InvalidPayload) <==> text.Some? && s.decode(text.value) == None)
                 && (r.Ok? <==> text.Some? && s.decode(text.value).Some?)
                 && (r.Ok? ==>
                       && r.value.Some? && Some((r.value.value.paint, r.value.value.frame)) == s.decode(text.value)
                       && WordBytes(r.value.value.generation) == bytes[9..17]
                       && WordBytes(r.value.value.sequence) == bytes[17..25]))
  {
    assert MAGIC == Ascii("SKTERM01");
    if |bytes| >= 37 {
      WordBytesOf(bytes[9..17]);
      WordBytesOf(bytes[17..25]);
    }
  }

  lemma {:induction false} BigEndianOf(s: seq<byte>)
    ensures BigEndian(BigValue(s), |s|) == s
    decreases |s|
  {
    if s != [] {
      var init, last := s[..|s| - 1], s[|s| - 1];
      BigEndianOf(init);
      assert s == init + [last];
      assert BigValue(s) / 256 == BigValue(init) && BigValue(s) % 256 == last as nat;
    }
  }

  lemma WordBytesOf(s: seq<byte>)
    requires |s| == 8
    ensures WordBytes(WordOf(s)) == s
  {
    BigEndianOf(s);
  }

  /** The data a record is bound to, spelled out. */
  lemma AadAsSealed(provider: seq<byte>, window: seq<byte>, pane: seq<byte>)
    ensures Aad(provider, window, pane) ==
            Ascii("soksak/terminal-checkpoint/v2") + [0] + provider + [0] + window + [0] + pane
  {
    assert AAD_PREFIX == Ascii("soksak/terminal-checkpoint/v2");
  }

  /** The fields of a record are where reading looks for them. */
  lemma RecordLayout(generation: word, sequence: word, nonce: seq<byte>, ciphertext: seq<byte>)
    requires |nonce| == NONCE_BYTES
    ensures var bytes := RecordBytes(generation, sequence, nonce, ciphertext);
            && HeaderHolds(bytes) && PositionOf(bytes) == Some((generation, sequence))
            && bytes[25..HEADER_BYTES] == nonce && bytes[HEADER_BYTES..] == ciphertext
  {
    var bytes := RecordBytes(generation, sequence, nonce, ciphertext);
    assert bytes[..8] == MAGIC;
    assert bytes[8] == VERSION;
    assert bytes[9..17] == WordBytes(generation);
    assert bytes[17..25] == WordBytes(sequence);
    assert bytes[25..HEADER_BYTES] == nonce;
    assert bytes[HEADER_BYTES..] == ciphertext;
    WordRoundTrip(generation);
    WordRoundTrip(sequence);
  }

  /** A written record reads back as what was written, and only for the pane it was written for. */
  lemma ReadAfterWrite(s: Sealing, aad: seq<byte>, other: seq<byte>, generation: word, sequence: word,
      nonce: seq<byte>, paint: seq<byte>, frame: Frame)
    requires Sound(s) && |nonce| == NONCE_BYTES
    ensures Read(s, other, Some(Written(s, aad, generation, sequence, nonce, paint, frame))) ==
            if other == aad then Ok(Some(Archived(generation, sequence, paint, frame))) else Err(AuthenticationFailed)
  {
    RecordLayout(generation, sequence, nonce, s.seal(nonce, aad, s.encode(paint, frame)));
  }
}
