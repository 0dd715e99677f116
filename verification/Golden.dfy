/** The golden vector that the Rust and TypeScript tests share. */
module Golden {
  import opened Bytes
  import Utf8
  import opened Core

  const HOST := Ascii("api.example.com")
  const KEY := Ascii("price")
  const VALUE := Ascii("12345.67")

  function Filled(b: Byte): Bytes32 { seq(32, _ => b) }

  const CLAIM := ClaimV1(1, HOST, Filled(1), KEY, VALUE, 1_700_000_000, 1_700_000_300, Filled(2), Filled(3))

  lemma Issued()
    ensures I64ToLE(1_700_000_000) == [0x00, 0xF1, 0x53, 0x65, 0, 0, 0, 0]
  {
  }

  lemma Expires()
    ensures I64ToLE(1_700_000_300) == [0x2C, 0xF2, 0x53, 0x65, 0, 0, 0, 0]
  {
  }

  lemma ShortString(t: seq<AsciiChar>)
    requires |t| < 256
    ensures Framed(t) == [|t|, 0, 0, 0] + t
  {
    Utf8.AsciiEncode(t);
    SmallLE(|t|);
  }

  lemma SmallLE(n: nat)
    requires n < 256
    ensures ToLE(n, 4) == [n, 0, 0, 0]
  {
    assert n % 256 == n && n / 256 == 0;
    assert ToLE(0, 1) == [0] + ToLE(0, 0);
    assert ToLE(0, 2) == [0] + ToLE(0, 1);
    assert ToLE(0, 3) == [0] + ToLE(0, 2);
  }

  lemma GoldenVector()
    ensures Serializable(CLAIM)
    ensures CanonicalBytes(CLAIM) ==
            [1] + (([15, 0, 0, 0] + HOST) + (Filled(1) + (([5, 0, 0, 0] + KEY) + (([8, 0, 0, 0] + VALUE) +
            ([0x00, 0xF1, 0x53, 0x65, 0, 0, 0, 0] + ([0x2C, 0xF2, 0x53, 0x65, 0, 0, 0, 0] + (Filled(2) + Filled(3))))))))
  {
    ShortString(HOST);
    ShortString(KEY);
    ShortString(VALUE);
    Issued();
    Expires();
    CanonicalLayout(CLAIM);
  }
}
