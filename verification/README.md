# Proof-of-work nonce search, modelled in Dafny

This project models `mine(prefix, difficulty)` from `POW_TEST.py`, a brute-force
proof-of-work miner. The miner builds a target of `difficulty` `'0'` characters.
It then tries nonces 0, 1, 2, … in order. For each nonce it hashes `prefix`
immediately followed by the nonce's decimal text. It stops at the first digest
that starts with the target.

The hash is a parameter `hash: string -> string`. It stands for SHA-256
(FIPS 180-4, section 6.2) of the UTF-8 encoding of the payload, rendered as
lowercase hexadecimal. Every property below holds for any such function, so
SHA-256 itself is not modelled.

Files, one module each:

- `decimal.dfy` (`Decimal`): `str(n)` for a natural `n` (`Dec`, without Python's
  digit-count limit; see `Dec` under "## Left out"), its inverse
  `Parse`, and the round trips between them.
- `difficulty.dfy` (`Difficulty`): Python's `"0" * d` (`Target`), `str.startswith`
  (`StartsWith`) and the acceptance test `Accepts`.
- `mining.dfy` (`Mining`): the payload, a reference definition of the search
  (`FirstHitFrom`), the search loop itself (`Mine`) and the lemmas relating them.

Difficulty is an `int`, as in the source. The code does not validate it: for a
negative `d`, Python's `"0" * d` is the empty string, so every digest is
accepted, as at difficulty 0. The code does not reject a negative difficulty,
and neither does the model. A difficulty too large for Python to build the
target is not modelled; see `Target` under "## Left out".

## Model

| member | source | states |
|---|---|---|
| Decimal.Dec | POW_TEST.py:12 | the nonce's text is a non-empty string of ASCII digits with no leading zero, and it starts with '0' only for nonce 0 |
| Decimal.ParseDec | POW_TEST.py:12 | reading the decimal text of `n` back gives `n`, so the text loses nothing |
| Decimal.DecParse | POW_TEST.py:12 | every digit string without a leading zero is the text of exactly the number it denotes |
| Decimal.DecInjective | POW_TEST.py:12 | two nonces have the same text if and only if they are equal |
| Difficulty.StartsWith | POW_TEST.py:14 | `s.startswith(p)` holds iff `p` is no longer than `s` and agrees with `s` at every position of `p` |
| Difficulty.Target | POW_TEST.py:7 | `"0" * d` has length `d` for positive `d` and 0 otherwise, and every character is '0' |
| Difficulty.Accepts | POW_TEST.py:14 | a digest is accepted iff it has at least `d` characters and its first `d` characters are all '0' |
| Difficulty.ShortDigestRejected | POW_TEST.py:14 | a digest shorter than the difficulty is rejected |
| Difficulty.TrivialDifficultyAcceptsAll | POW_TEST.py:7 | at difficulty 0 or below the target is empty and every digest is accepted |
| Difficulty.AcceptsMonotone | POW_TEST.py:7 | a digest accepted at some difficulty is accepted at every lower difficulty |
| Mining.Payload | POW_TEST.py:12 | the payload starts with the prefix, and the rest is exactly the nonce's decimal text, with no separator |
| Mining.PayloadInjective | POW_TEST.py:12 | for one prefix, two nonces give the same payload iff they are equal |
| Mining.PayloadHasNoSeparator | POW_TEST.py:12 | across prefixes payloads collide: there are two different prefixes and nonces with the same payload ("arthur1" with nonce 2 and "arthur" with nonce 12) |
| Mining.FirstHitFrom | POW_TEST.py:8-20 | searching upward from `from`, given some accepted nonce above it, yields an accepted nonce with no accepted nonce between `from` and it |
| Mining.FirstHitUnique | POW_TEST.py:8-20 | at most one nonce is accepted with no smaller accepted nonce |
| Mining.FirstHitIndependentOfBound | POW_TEST.py:8-14 | the search from 0 returns the least accepted nonce whichever accepted nonce caps it, so the answer depends only on prefix, difficulty and hash |
| Mining.FirstHitMonotone | POW_TEST.py:7-20 | the least accepted nonce at a difficulty is at most the least accepted nonce at any higher difficulty |
| Mining.NoHitAboveDigestLength | POW_TEST.py:11-20 | when every digest has the same length and the difficulty exceeds it, no nonce is accepted, so once the target is built the loop runs until the nonce's text exceeds Python's digit-count limit (see `Dec` under "## Left out") |
| Mining.Mine | POW_TEST.py:5-20 | the returned digest is the hash of the returned nonce's payload and is accepted; no smaller nonce is accepted; the nonce equals the reference search's; it took nonce + 1 hashes; at difficulty 0 or below it returns nonce 0 after one hash |

## Left out

- Mine: the source loop is unbounded and never returns when no nonce is accepted; the model requires a ghost accepted nonce `bound` so that the loop terminates, and `NoHitAboveDigestLength` states one such case where no such nonce exists.
- Dec: since Python 3.11, converting an `int` of more than 4300 digits to text raises ValueError by default (the limit is set with `sys.set_int_max_str_digits`), so `f"{prefix}{nonce}"` (POW_TEST.py:12) raises once the nonce reaches 10^4300; `Dec` renders every natural number and that error path is not modelled.
- Target: Python's `"0" * difficulty` (POW_TEST.py:7) raises OverflowError for a difficulty above `sys.maxsize` and MemoryError for one too large to allocate, before any hash is computed; the model has unbounded integers and builds the target for every difficulty, so that error path is not modelled.
- SHA-256 (POW_TEST.py:13): the hash is a parameter. The 64-character lowercase-hex shape of the digest is not assumed.
- The UTF-8 `.encode()` step (POW_TEST.py:12): a Dafny `char` is a Unicode scalar value, so a prefix holding a lone surrogate such as `"\ud800"`, on which `.encode()` raises UnicodeEncodeError at the first nonce, cannot be expressed. For prefixes of scalar values the encoding is injective, so hashing the text stands for hashing its bytes.
- Timing with `time.perf_counter` and the elapsed-seconds formatting (POW_TEST.py:9, 15, 18): wall-clock time and floating point.
- Printing of the result (POW_TEST.py:16-18): output only; `Mine` returns the nonce and digest instead.
- The `__main__` driver (POW_TEST.py:23-25): two fixed calls; the concrete SHA-256 outcome for "arthur" cannot be derived without modelling SHA-256.
- RSA_TEST.py: key generation, PEM files and signing are calls into an external cryptography library and file I/O.
