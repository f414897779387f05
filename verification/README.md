# ABS: an attribute-based signature scheme in the exponent model

This project models `src/hk/chriz/ABS.java` and proves properties of the model. That class implements a pairing-based attribute-based signature scheme in four operations:

- `setup` builds the public tables `g`, `h_0..h_tmax`, `A`, `B`, `C` from the master scalars `a0, a, b, c`.
- `keygen` derives the key `Kbase`, `K0 = Kbase^(1/a0)` and one `Ku = Kbase^(1/(a + b·H(attr)))` per attribute.
- `sign` computes `Y`, `W`, `S_1..S_l` and `P_1..P_t` from a key and the policy triple `(M, u, mu)`.
- `verify` runs three checks in order and stops at the first failure:
  1. the pairing equation `e(Y, h0) == e(W, A0)`;
  2. that `Y` is not the identity;
  3. one pairing equation per column of `M`.

## How the model represents the scheme

Group elements are written in the discrete-log (exponent) representation over an abstract prime `p`, which is the order of the pairing groups. Every element of G1, G2 and GT is its exponent in Z_p relative to a fixed generator, so:

- `Groups.Op` is the group operation `mul`, which becomes `+ mod p`;
- `Groups.Pow` is `powZn`, which becomes `* mod p`;
- `Groups.Pair` is the pairing, which becomes `* mod p` in the GT exponent;
- `Groups.Identity` is `newZeroElement()`, the value `0`;
- `Groups.ZrOf` is `Zr.newElement(n)`, which becomes `n mod p`;
- `Field.Inverse` is Zr `invert`, computed by the extended Euclidean algorithm.

Because `p` is prime, Z_p is a field. This is proved (`Field.Inverse`, `Field.NoZeroDivisors`), not assumed.

The scheme's inputs become parameters:

- every `newRandomElement()` draw becomes an explicit parameter: `g`, the master scalars, the `h_i`, `Kbase`, and `r_0..r_l`;
- the policy compiler's output `(M, u, mu)` becomes an explicit input;
- the attribute hash `H` (`MSP.elementFromString`) becomes an uninterpreted deterministic function `string -> int`.

The `null` entries at index 0 of `B`, `S_i` and `P_j` are `None` entries of `seq<Option<int>>`.

Errors are modelled as follows:

- **`keygen`:** an inversion that throws becomes a `Failure` result saying which inversion failed.
- **`sign`:** the index bounds it relies on are preconditions (`AbsSign.CanSign`).
- **`verify`:** the signature is untrusted input. The exception `verify` throws on a column beyond `tmax`, or on a missing or `null` `S_i` or `P_j`, becomes the verdict `Fault(j)`.

The modules follow the class:

- `Field`, `Groups` and `Results` hold the arithmetic and the wrappers.
- `AbsTypes` holds the parameter, key, policy and signature records.
- `AbsSetup`, `AbsKeyGen`, `AbsSign` and `AbsVerify` hold one operation each. Each is a method whose loops follow the Java loops.
- `AbsCompleteness` relates an honest `sign` to `verify`.

### Where the code differs from the scheme's description

The model follows the code in each of these cases:

- **`verify` on malformed signatures:** the code does not report a distinguishable reason. It throws, which is modelled as `Fault(j)`.
- **`sign` with extra attribute keys:** `sign` does not reject a key with more attribute keys than `M` has rows. Only fewer keys than rows, or more columns than `tmax`, make it fail. These are the conditions in `CanSign`.
- **`keygen` on `a0`:** `keygen` also fails when `a0` has no inverse (`NotInvertibleA0`), not only when `a + b·H(attr)` has none.

### Consequences the proofs make explicit

- **When the identity check rejects an honest signature:** it does so exactly when `Kbase` or `r0` is 0 in Z_p (`HonestIdentity`). The commented-out coprimality check on `r0` (ABS.java lines 121-127) would stop signing when `r0` is 0. Nothing excludes `Kbase` being 0.
- **When a column check passes:** for an honest signature, it passes exactly when one of these holds (`HonestColumn`):
  - `Y` is the identity;
  - `h_j` is the identity;
  - column `j` of `M` sums to 1 (for `j = 1`) or to 0 (for `j > 1`) in Z_p.

## Model

| member | source | states |
|---|---|---|
| AbsSetup.Setup | src/hk/chriz/ABS.java:40-68 | `h` is the `tmax+1` draws, and `A` and `B` have length `tmax+1` with `B[0]` absent and every other `B[i]` present. `A0 = h0^a0`, `A_i = h_i^a` and `B_i = h_i^b` for `1 <= i <= tmax`, and `C = g^c`. |
| AbsSetup.AttributeBase | src/hk/chriz/ABS.java:50-64 | For every column `j >= 1` and every `u` congruent to a hashed attribute `hn` mod p, the tables give `B_j^u · A_j == h_j^(a + b·hn)`. This is the base that `sign` and `verify` raise to row exponents, and `HonestRow` relies on it to cancel an attribute key. |
| Field.Inverse | src/hk/chriz/ABS.java:83-84 | Zr `invert`: an inverse exists exactly when `x` is not 0 mod p, and when it exists it is a reduced `y` with `x·y == 1` in Z_p. |
| AbsKeyGen.RootOfBase | src/hk/chriz/ABS.java:85-86 | `Kbase^(1/e)` is reduced and raising it to `e` gives back `Kbase`. |
| AbsKeyGen.AttributeKeys | src/hk/chriz/ABS.java:88-104 | It succeeds exactly when every attribute's `a + b·H(attr)` is invertible. On success it gives one `Ku` per attribute, in input order, with `Ku[k]^(a + b·H(attr_k)) == Kbase`. Otherwise it gives the first attribute whose exponent is 0. |
| AbsKeyGen.KeyGen | src/hk/chriz/ABS.java:76-107 | It succeeds exactly when `a0` and every `a + b·H(attr)` are invertible. On success, `K0^a0 == Kbase`, every `Ku[k]^(a + b·H(attr_k)) == Kbase`, and the attributes are kept in order. It fails with `NotInvertibleA0` exactly when `a0` is 0. Otherwise a failure names the first non-invertible attribute. |
| AbsSign.Sign | src/hk/chriz/ABS.java:109-170 | `Y = Kbase^r0` and `W = K0^r0`. `S` has length `l+1` and `P` has length `t+1`, with index 0 absent in both. `S_i = Ku[i-1]^r0 · (C·g^mu)^r_i`. `P_j` is the product from the identity over rows `i = 1..l` of `(A_j · B_j^u(i))^(M[i][j]·r_i)`. |
| AbsVerify.Verify | src/hk/chriz/ABS.java:172-222 | The verdict follows the check order. It rejects at the pairing check exactly when `e(Y,h0) != e(W,A0)`. It rejects at the identity check exactly when that check passes and `Y` is the identity. It rejects at column `j` exactly when `verify` reaches `j` (front checks and all earlier columns pass), `j` can be evaluated, and `lhs_j != rhs_j`. It faults at `j` exactly when `verify` reaches `j` and `j` cannot be evaluated. It accepts exactly when all checks pass. |
| AbsVerify.FirstFailingColumn | src/hk/chriz/ABS.java:195-219 | Once column `j` fails, no later column is reached and the signature is not accepted. |
| AbsCompleteness.HonestPairingCheck | src/hk/chriz/ABS.java:180-186 | For any key from `keygen` and any `r0`, the honest `Y` and `W` pass `e(Y,h0) == e(W,A0)`. |
| AbsCompleteness.HonestIdentity | src/hk/chriz/ABS.java:188-192 | An honest `Y` is the identity exactly when `Kbase` or `r0` is 0 in Z_p. |
| AbsCompleteness.HonestRow | src/hk/chriz/ABS.java:197-205 | If `u(i) == H(attr_i)`, row `i`'s factor of `lhs_j` for an honest signature equals `e(Y,h_j)^M[i][j] · e(C·g^mu, i-th factor of P_j)`. |
| AbsCompleteness.HonestLhs | src/hk/chriz/ABS.java:196-206 | When every row factor splits this way, `lhs_j` after `n` rows is `e(Y,h_j)^(sum of the first n entries of column j) · e(C·g^mu, product of the first n factors of P_j)`. |
| AbsCompleteness.HonestColumn | src/hk/chriz/ABS.java:195-219 | For an honest signature, column `j` can always be evaluated. It passes exactly when `Y` or `h_j` is the identity, or column `j` of `M` sums to 1 (`j = 1`) or 0 (`j > 1`) mod p. |
| AbsCompleteness.Completeness | src/hk/chriz/ABS.java:172-222 | Suppose `Kbase` and `r0` are non-zero and the column sums of `M` are `(1, 0, ..., 0)` mod p. Then an honest signature, verified against the same `(M, u, mu)`, is accepted. |
| AbsCompleteness.HonestAcceptance | src/hk/chriz/ABS.java:172-222 | Suppose `Kbase` and `r0` are non-zero and no `h_j` is the identity. Then an honest signature is accepted exactly when the column sums of `M` are `(1, 0, ..., 0)` mod p. |

## Left out

- **Pairing and curve internals:** `PairingFactory.getPairing("a.properties")` and JPBC `Element` arithmetic (ABS.java line 21) are replaced by the exponent model over an abstract prime. The curve, and the distinction between G1, G2, GT and Zr, are not modelled.
- **The identity element:** `newZeroElement()` (ABS.java lines 153, 189, 196) is taken to be the identity of its group. That is a property of the library, not of this class.
- **Random draws:** `newRandomElement()` (ABS.java lines 30-42, 80, 119) becomes explicit parameters. No claim is made about distributions.
- **The policy compiler and the hash:** `MSP` is not part of this model. `MSP.getInstance` becomes the input triple `(M, u, mu)`, and `MSP.elementFromString` becomes the uninterpreted function `H`. The triple's shape is a precondition of `Sign` and `Verify`:
  - at least one row;
  - every row at least as long as the first;
  - at least one `u` per row.
- **Java `int` matrix entries:** entries of `M` are unbounded integers. The source only reduces them into Zr (`newElement`, `mul`), so 32-bit bounds do not change any result.
- **`null` `Y` or `W` in a signature:** the exception the first pairing would throw for these is not modelled. `Y` and `W` are always values.
- **Logging:** the `System.out.println`/`printf` calls are I/O only.
- **Commented-out code:** the coprimality check on `r0` (lines 121-127) and the `pow` alternative (line 204) are not executed by the source.
- **Security properties:** unforgeability, anonymity and unlinkability are computational and probabilistic claims, not functional contracts.
- **Mutable object state:** the `pubParam` and `mkParam` fields are passed as immutable values (`PubParams`, `MasterKey`).
- **Exception kinds in `verify`:** `AbsVerify.Verify` reports every exception as `Fault(j)` with the column being checked. It does not distinguish an index-out-of-range exception from a null-pointer exception.
