/**
 * The checksum input Program.main builds once the transfer is over: wait for the challenge,
 * then lay out a buffer holding the challenge as four little-endian bytes followed by the
 * file's content. The CRC-32 over that buffer is not part of this model.
 */
module Framing {
  import opened Wrappers
  import opened Engine
  import opened JavaInt

  /** What getChecksumChallenge() returns while no challenge has arrived. */
  const NoChallenge: int := -1

  /** Bytes 0 to 3 of fileContent, each computed with Java's / and % and then cast to byte. */
  function ChallengePrefix(c: Int32): (p: seq<byte>)
    ensures |p| == 4
  {
    [ToByte(Rem(c, 256)),
     ToByte(Rem(Div(c, 256), 256)),
     ToByte(Rem(Div(c, 256 * 256), 256)),
     ToByte(Rem(Div(c, 256 * 256 * 256), 256))]
  }

  /** Reading four bytes back as a little-endian base-256 number. */
  function DecodeChallenge(p: seq<byte>): (c: int)
    requires |p| == 4
    ensures 0 <= c < 0x1_0000_0000
  {
    p[0] as int + 256 * (p[1] as int) + 65536 * (p[2] as int) + 16777216 * (p[3] as int)
  }

  /** For a non-negative challenge the bytes are its base-256 digits, least significant first. */
  lemma ChallengePrefixDigits(c: Int32)
    requires 0 <= c
    ensures var p := ChallengePrefix(c);
            && p[0] == c % 256
            && p[1] == (c / 256) % 256
            && p[2] == (c / 65536) % 256
            && p[3] == (c / 16777216) % 256
  {
    assert Div(c, 256) == c / 256;
    assert Div(c, 65536) == c / 65536;
    assert Div(c, 16777216) == c / 16777216;
  }

  /** A non-negative challenge is recovered from its four bytes. */
  lemma ChallengeRoundTrip(c: Int32)
    requires 0 <= c
    ensures DecodeChallenge(ChallengePrefix(c)) == c
  {
    ChallengePrefixDigits(c);
    var q1 := c / 256;
    var q2 := q1 / 256;
    var q3 := q2 / 256;
    assert c == c % 256 + 256 * q1;
    assert q1 == q1 % 256 + 256 * q2;
    assert q2 == q2 % 256 + 256 * q3;
    assert q2 == c / 65536;
    assert q3 == c / 16777216;
    assert q3 < 256;
    assert q3 % 256 == q3;
  }

  /** Four bytes with the top bit of the last one clear are the framing of exactly one challenge. */
  lemma PrefixRoundTrip(p: seq<byte>)
    requires |p| == 4 && p[3] < 128
    ensures DecodeChallenge(p) < 0x8000_0000
    ensures ChallengePrefix(DecodeChallenge(p) as Int32) == p
  {
    var c := DecodeChallenge(p);
    ChallengePrefixDigits(c);
    var q1 := p[1] as int + 256 * (p[2] as int) + 65536 * (p[3] as int);
    var q2 := p[2] as int + 256 * (p[3] as int);
    DivisionByBase(c, q1, p[0], 256);
    DivisionByBase(q1, q2, p[1], 256);
    DivisionByBase(q2, p[3], p[2], 256);
    DivisionByBase(p[3], 0, p[3], 256);
    DivisionByBase(c, q2, p[0] as int + 256 * (p[1] as int), 65536);
    DivisionByBase(c, p[3], p[0] as int + 256 * (p[1] as int) + 65536 * (p[2] as int), 16777216);
  }

  /** Euclidean division recovers quotient and remainder. */
  lemma DivisionByBase(a: int, q: int, r: int, b: int)
    requires 0 < b && 0 <= r < b && a == q * b + r
    ensures a / b == q && a % b == r
  {
    var q0, r0 := a / b, a % b;
    assert (q - q0) * b == r0 - r;
    if q > q0 {
      MulAtLeast(q - q0, b);
    } else if q < q0 {
      MulAtLeast(q0 - q, b);
    }
  }

  lemma MulAtLeast(x: int, b: int)
    requires x >= 1 && b > 0
    ensures x * b >= b
  {
    assert (x - 1) * b >= 0;
  }

  /** Negative challenges are not framed as two's complement: -1 becomes 255, 0, 0, 0. */
  lemma MinusOnePrefix()
    ensures ChallengePrefix(-1) == [255, 0, 0, 0]
  {
    assert Div(-1, 256) == 0 && Div(-1, 65536) == 0 && Div(-1, 16777216) == 0;
    assert Rem(-1, 256) == -1 && Rem(0, 256) == 0;
  }

  /**
   * The layout of fileContent: length fileLength + 4, the challenge prefix in bytes 0 to 3, the
   * bytes read from the file from index 4 on, and zeros after them.
   */
  ghost predicate IsFramed(buf: seq<byte>, c: Int32, fileLength: nat, content: seq<byte>)
  {
    && |content| <= fileLength
    && |buf| == fileLength + 4
    && buf[..4] == ChallengePrefix(c)
    && buf[4..4 + |content|] == content
    && (forall i :: 4 + |content| <= i < |buf| ==> buf[i] == 0)
  }

  /**
   * `new byte[(int) fileLength + 4]`, `input.read(fileContent, 4, (int) fileLength)` (which
   * delivered `content`), then the four prefix bytes.
   */
  method FrameContent(c: Int32, fileLength: nat, content: seq<byte>) returns (fileContent: array<byte>)
    requires |content| <= fileLength && fileLength + 4 < 0x8000_0000
    ensures IsFramed(fileContent[..], c, fileLength, content)
  {
    fileContent := new byte[fileLength + 4](_ => 0);
    var i := 0;
    while i < |content|
      invariant 0 <= i <= |content|
      invariant fileContent[4..4 + i] == content[..i]
      invariant forall j :: 0 <= j < 4 || 4 + i <= j < fileContent.Length ==> fileContent[j] == 0
    {
      fileContent[4 + i] := content[i];
      i := i + 1;
    }
    fileContent[0] := ToByte(Rem(c, 256));
    fileContent[1] := ToByte(Rem(Div(c, 256), 256));
    fileContent[2] := ToByte(Rem(Div(c, 256 * 256), 256));
    fileContent[3] := ToByte(Rem(Div(c, 256 * 256 * 256), 256));
    assert fileContent[..4] == ChallengePrefix(c);
    assert fileContent[..][4..4 + |content|] == content;
  }

  /** `while (client.getChecksumChallenge() == -1) client.Tick();` over the answers of successive polls. */
  method AwaitChallenge(polls: seq<Int32>) returns (challenge: Int32, polled: nat)
    ensures polled <= |polls|
    ensures forall j :: 0 <= j < polled ==> polls[j] == NoChallenge
    ensures polled < |polls| ==> challenge == polls[polled] && challenge != NoChallenge
    ensures polled == |polls| ==> challenge == NoChallenge
  {
    polled := 0;
    challenge := NoChallenge;
    while polled < |polls| && polls[polled] == NoChallenge
      invariant polled <= |polls|
      invariant forall j :: 0 <= j < polled ==> polls[j] == NoChallenge
    {
      polled := polled + 1;
    }
    if polled < |polls| {
      challenge := polls[polled];
    }
  }

  /**
   * Lines 82 to 106 of Program.main: framing happens only once a challenge other than -1 has
   * arrived, and then frames the first such challenge with the whole file.
   */
  method ChecksumInput(polls: seq<Int32>, file: seq<byte>) returns (input: Option<seq<byte>>)
    requires |file| + 4 < 0x8000_0000
    ensures input.None? <==> forall j :: 0 <= j < |polls| ==> polls[j] == NoChallenge
    ensures input.Some? ==>
      exists k :: 0 <= k < |polls| && polls[k] != NoChallenge &&
        (forall j :: 0 <= j < k ==> polls[j] == NoChallenge) &&
        IsFramed(input.value, polls[k], |file|, file)
  {
    var challenge, polled := AwaitChallenge(polls);
    if polled == |polls| {
      return None;
    }
    var fileContent := FrameContent(challenge, |file|, file);
    input := Some(fileContent[..]);
  }
}
