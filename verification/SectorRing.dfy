// Sectors of a FlashDB partition in their ring.

module SectorRing {

  /** The k-th sector of a walk round the ring that starts at `oldest`. */
  function RingAt(oldest: nat, n: nat, k: nat): (s: nat)
    requires oldest < n && k < n
    ensures s < n
  {
    if oldest + k < n then oldest + k else oldest + k - n
  }

  /** Where in that walk sector `s` is met. */
  function RingPos(oldest: nat, n: nat, s: nat): (k: nat)
    requires oldest < n && s < n
    ensures k < n && RingAt(oldest, n, k) == s
  {
    if oldest <= s then s - oldest else s + n - oldest
  }

  function NextSector(s: nat, n: nat): nat {
    if s + 1 < n then s + 1 else 0
  }
}
