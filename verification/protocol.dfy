/**
 * The wire records shared by the privileged helper and the receiving plugin
 * (src/drmsend.h). The metadata message is a fixed-layout record; the
 * descriptors themselves are not part of it and travel as ancillary data,
 * referenced from each record only through `fdIndexes`.
 */
module Protocol {

  /** OBS_DRMSEND_MAX_FRAMEBUFFERS: capacity of a response. */
  const MaxFramebuffers: nat := 16
  /** OBS_DRMSEND_TAG: stamped by the sender, required by the receiver. */
  const Tag: int := 0x0b500002
  /** Every record has four plane slots for indexes, pitches and offsets. */
  const PlaneSlots: nat := 4

  /** sizeof(struct sockaddr_un::sun_path) on Linux. */
  const SunPathSize: nat := 108
  /** sizeof(int) on the targets the code is built for. */
  const IntSize: nat := 4
  /** CMSG_LEN(0): the aligned `struct cmsghdr` on 64-bit Linux. */
  const CmsgHeaderLen: nat := 16
  /** Values of `size_t` are taken modulo this. */
  const SizeModulus: nat := 0x1_0000_0000_0000_0000
  /** Values of `uint32_t` are taken modulo this. */
  const U32Modulus: nat := 0x1_0000_0000
  /**
   * sizeof(drmsend_response_t) with one 64-bit modifier per record on LP64:
   * a record is 80 bytes, the header 16 (tag and counts padded to 8).
   */
  const ResponseSize: nat := 16 + 16 * 80

  /** A fixed array of four plane slots. */
  type Quad = s: seq<int> | |s| == PlaneSlots witness [0, 0, 0, 0]

  const ZeroQuad: Quad := [0, 0, 0, 0]

  /** drmsend_framebuffer_t, with the single modifier both users read. */
  datatype Framebuffer = Framebuffer(
    fbId: int,
    width: int,
    height: int,
    fourcc: int,
    planes: int,
    fdIndexes: Quad,
    pitches: Quad,
    offsets: Quad,
    modifier: int)

  const ZeroFramebuffer: Framebuffer :=
    Framebuffer(0, 0, 0, 0, 0, ZeroQuad, ZeroQuad, ZeroQuad, 0)

  /** The response's fixed array of records. */
  type Records = s: seq<Framebuffer> | |s| == MaxFramebuffers
    witness seq(16, _ => ZeroFramebuffer)

  /** drmsend_response_t. */
  datatype Response = Response(
    tag: int,
    numFramebuffers: int,
    numFds: int,
    framebuffers: Records)

  /** A zero-initialised response, as `= {0}` leaves it. */
  const ZeroResponse: Response := Response(0, 0, 0, seq(16, _ => ZeroFramebuffer))

  predicate IsI32(x: int) {
    -0x8000_0000 <= x < 0x8000_0000
  }

  /** The unsigned 32-bit value a C `int` becomes when returned as `uint32_t`. */
  function ToU32(x: int): (r: nat)
    ensures r < U32Modulus
    ensures 0 <= x < U32Modulus ==> r == x
  {
    x % U32Modulus
  }

  /** `sizeof(int) * numFds`, computed in `size_t` as the CMSG macros receive it. */
  function FdPayloadBytes(numFds: int): (r: nat)
    ensures r < SizeModulus
    ensures 0 <= numFds < 0x8000_0000 ==> r == IntSize * numFds
  {
    (IntSize * numFds) % SizeModulus
  }

  /** CMSG_LEN(bytes) on Linux: header plus payload, in `size_t`. */
  function CmsgLen(bytes: nat): (r: nat)
    ensures r < SizeModulus
    ensures bytes < SizeModulus - CmsgHeaderLen ==> r == CmsgHeaderLen + bytes
  {
    (CmsgHeaderLen + bytes) % SizeModulus
  }

  /** CMSG_LEN is strictly increasing on every payload that does not wrap. */
  lemma CmsgLenStrictlyIncreasing(a: nat, b: nat)
    requires a < b < SizeModulus - CmsgHeaderLen
    ensures CmsgLen(a) < CmsgLen(b)
  {
  }

  /**
   * The control length declared for a 32-bit `num_fds` equals the control
   * length of an `n`-descriptor block exactly when `num_fds == n`, negative
   * counts included: their wrapped sizes never collide with a real block.
   */
  lemma FdCountMatchUnique(numFds: int, n: nat)
    requires IsI32(numFds)
    requires n < 0x8000_0000
    ensures CmsgLen(FdPayloadBytes(numFds)) == CmsgLen(FdPayloadBytes(n)) <==> numFds == n
  {
    assert FdPayloadBytes(n) == IntSize * n;
    assert CmsgLen(FdPayloadBytes(n)) == CmsgHeaderLen + IntSize * n;
    if numFds < 0 {
      var w := IntSize * numFds + SizeModulus;
      assert FdPayloadBytes(numFds) == w;
      if numFds >= -4 {
        assert CmsgHeaderLen + w - SizeModulus < CmsgHeaderLen;
        assert CmsgLen(w) == CmsgHeaderLen + w - SizeModulus;
      } else {
        assert CmsgLen(w) == CmsgHeaderLen + w;
      }
    }
  }
}
