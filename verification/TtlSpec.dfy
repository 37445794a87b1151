/** What the operations of the cache with expiry compute, on values. */
module TtlSpec {
  import opened Prelude

  datatype TTLValue = TTLValue(value: Str, expiresAt: int)

  type Entries = map<Str, TTLValue>

  /** now.After(expiresAt): an entry still lives at the instant it expires. */
  predicate Expired(e: TTLValue, now: int) {
    now > e.expiresAt
  }

  /** The entries not expired at `now`: what a cleanup with that clock value keeps. */
  function Live(entries: Entries, now: int): Entries {
    map k | k in entries && !Expired(entries[k], now) :: entries[k]
  }

  function Found(entries: Entries, key: Str): Option<TTLValue> {
    if key in entries then Some(entries[key]) else None
  }

  function Stale(found: Option<TTLValue>, now: int): bool {
    found.Some? && Expired(found.value, now)
  }

  /** What Get answers about what it found under the lock, at a later clock value. */
  function Verdict(found: Option<TTLValue>, now: int): Option<Str> {
    if found.None? || Stale(found, now) then None else Some(found.value.value)
  }

  function DeletedIfExpired(entries: Entries, key: Str, now: int): Entries {
    if Stale(Found(entries, key), now) then entries - {key} else entries
  }

  /** A deletion that comes late removes nothing but an entry expired by then. */
  lemma DeletedIfExpiredMeaning(entries: Entries, key: Str, now: int)
    ensures Live(DeletedIfExpired(entries, key, now), now) == Live(entries, now)
    ensures forall k :: k in entries && k !in DeletedIfExpired(entries, key, now) ==> k == key && Expired(entries[k], now)
  {}
}
