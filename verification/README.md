# MatX lazy expression engine — a Dafny model

This project models the core of MatX's lazy tensor-expression engine
(`include/matx_tensor_ops.h`) and the tensor descriptor behind every view
(`include/matx_desc.h`).

In the engine, every operator is a node with three parts:

- a compile-time `Rank()`;
- a per-dimension `Size(dim)`;
- a call operator that takes 0–4 coordinates, rewrites them, and reads from
  its operand or operands.

The model has one inductive `Expr` datatype with a constructor per node
class: `Leaf`, `Unary`, `Binary`, `If`, `IfElse`, `Comma`, `Self`,
`Reverse`, `Shift`, `HermitianT`, `Diag`, `Kron`, `RepMat`, the four
fft/ifft shifts, `Planar` and `Interleaved`. Pure functions give each
node's `Rank`, `Size`, `Eval` (its value at a coordinate) and `Reads` (the
ordered list of leaf accesses one evaluation performs). A `WellFormed`
predicate collects the checks a constructor performs:

- template constraints;
- the broadcast size assertions;
- termination of ShiftOp's normalising loops.

The modules follow the source's structure:

- `Results`, `Arith`, `Values`, `Descriptor`: error codes, C++ integer
  semantics (truncating `/` and `%`, `uint32_t` narrowing), element values
  with conjugation, and `tensor_desc_t`.
- `Index`: the per-coordinate rewrites (reverse, shift, fftshift and
  ifftshift, the Kron split, the repmat wrap, the layout dimension) and
  their laws.
- `TensorOps`: the expression datatype with `Rank`, `Size`, `WellFormed`,
  `InRange`, `Eval` and `Reads`.
- `Construct`: the checking constructors and the helper functions
  (`reverseX..W`, `flipud`, `fliplr`, `shift0..3`, `diag`, `kron`, `repmat`,
  `interleaved`).
- `Laws`: algebraic laws of the nodes:
  - involutions (reverse, Hermitian transpose);
  - round trips (shift, fft/ifft shifts, planar/interleaved);
  - the Kronecker, diagonal and repmat formulas;
  - IF/IFELSE/Comma read order.
- `Bounds`: the memory-safety theorem. At an in-range coordinate of a
  well-formed node, every leaf read lands inside its descriptor.
- `Bulk`: `copy`, `transpose` and `permute`, stated as the destination's
  contents once the submitted work has completed.
- `Align`: `AlignAddr` with 64-bit wrap-around.
- `Findings`: departures of the code from its evident intent (see below).

Two behaviours of the code are easy to miss:

- `transpose` on a non-linear source throws `matxInvalidSize`.
- The 2-D fft shifts at rank 3 and 4 rotate the last two dimensions.

## Model

| member | source | states |
|---|---|---|
| Descriptor.Make | include/matx_desc.h:48-60 | Construction succeeds exactly when the size and stride arrays have the same length and that length is RANK (otherwise the static assertions reject it). `Size(d)`, `Stride(d)`, `Shape()` and `Rank()` then return exactly what was supplied. |
| Descriptor.RankIgnoresContents | include/matx_desc.h:60 | Two descriptors of the same RANK have the same rank and array lengths, whatever their contents. |
| Values.Conj | include/matx_tensor_ops.h:588-601 | Conjugation keeps the real part and negates the imaginary part of a complex value; a real passes through unchanged. |
| Values.ConjInvolution | include/matx_tensor_ops.h:588-601 | Conjugating twice gives the value back (given an involutive negation). |
| Arith.CDiv | include/matx_tensor_ops.h:726-739 | Truncating division agrees with Euclidean division on a non-negative dividend and positive divisor, and rounds toward zero on a negative dividend. |
| Arith.CRem | include/matx_tensor_ops.h:822-834 | Truncating remainder agrees with Euclidean `%` on non-negative operands and is smaller in magnitude than the divisor. |
| Arith.CDivRem | include/matx_tensor_ops.h:726-739 | `(a / n) * n + a % n == a` for the truncating operators. |
| Arith.Wrap32 | include/matx_tensor_ops.h:1441 | Conversion to `uint32_t` lies in [0, 2^32), is the identity on that range, and is congruent to the input modulo 2^32. |
| Arith.MaxOf | include/matx_tensor_ops.h:1640 | The variadic MAX of a non-empty list bounds every element and is one of them. |
| Index.RevIndex | include/matx_tensor_ops.h:446-481 | Reverse maps c to N - c - 1: an in-range coordinate stays in range, and c and its image sum to N - 1. |
| Index.RevIndexInvolution | include/matx_tensor_ops.h:446-481 | Reversing a coordinate twice gives it back. |
| Index.ShiftBase | include/matx_tensor_ops.h:980-999 | The stored `base_` lies in [0, N] and is congruent to the shift modulo N. It equals N exactly when the shift is a positive multiple of N, because the positive loop tests `>`. |
| Index.DrainDown | include/matx_tensor_ops.h:993-996 | The positive-shift loop ends at or below n, leaves a shift already at or below n alone, keeps a positive shift positive, and removes a whole number of n's. |
| Index.RaiseUp | include/matx_tensor_ops.h:984-987 | The negative-shift loop ends with -shift at or below n, leaves a shift already there alone, keeps a negative shift negative, and adds a whole number of n's. |
| Index.NormalizeShift | include/matx_tensor_ops.h:980-999 | The constructor's loops stop whenever N > 0 (or N = 0 and s = 0), and they compute that `base_`. |
| Index.ShiftIndex | include/matx_tensor_ops.h:1006-1030 | For n > 0 and a non-negative `base_ + c`, the evaluated coordinate lies in [0, n) and differs from `base_ + c` by a whole number of extents. |
| Index.ShiftIndexIsMod | include/matx_tensor_ops.h:1003-1038 | For 0 <= c < N and any signed shift, the evaluated coordinate `(base_ + c) % N` is the Euclidean (c + s) mod N and lies in [0, N). |
| Index.ShiftIndexRoundTrip | include/matx_tensor_ops.h:1003-1038 | Shifting by s and then by -s returns every in-range coordinate, for shifts of any magnitude. |
| Index.FftIndex | include/matx_tensor_ops.h:1138-1142 | fftshift maps c to (c + (N + 1) / 2) mod N and keeps in-range coordinates in range. |
| Index.IfftIndex | include/matx_tensor_ops.h:1273-1277 | ifftshift maps c to (c + N / 2) mod N and keeps in-range coordinates in range. |
| Index.FftIfftInverse | include/matx_tensor_ops.h:1138-1142 | fftshift and ifftshift undo each other in either order. |
| Index.FftIfftCoincideOnEven | include/matx_tensor_ops.h:1273-1277 | On an even extent the two rotations are the same. |
| Index.FftNotSelfInverseOnOdd | include/matx_tensor_ops.h:1138-1142 | On an odd extent above one, neither rotation is its own inverse. |
| Index.KronSplit | include/matx_tensor_ops.h:726-729 | For c < NA * NB, the pair (c / NB, c % NB) is in range for A and B and recombines to c. |
| Index.KronJoin | include/matx_tensor_ops.h:726-729 | Every in-range pair (p, q) is the split of the unique output coordinate p * NB + q. |
| Index.RepIndexInRange | include/matx_tensor_ops.h:822-834 | RepMat's `c % N` is in range, is the identity below N, and is periodic with period N. |
| Index.LayoutDim | include/matx_tensor_ops.h:1471-1517 | The planar/interleaved split dimension is 0 at rank one and Rank - 2 from rank two on. |
| TensorOps.Rank | include/matx_tensor_ops.h:73-1692 | No contract of its own: the definition of every node's `Rank()` (-1 for a scalar, the larger operand rank for the broadcasting nodes, one less for diag, the operand's otherwise). The Construct and Laws rows state its consequences. |
| TensorOps.Size | include/matx_tensor_ops.h:73-1692 | No contract of its own: the definition of every node's `Size(dim)`. Construct.BinarySizeIsMax, Construct.MakeDiag, Construct.MakeKron, Laws.LayoutSizes and the other size rows state its consequences. |
| TensorOps.WellFormed | include/matx_tensor_ops.h:73-1692 | No contract of its own: the checks the constructors, static assertions and template constraints perform. The Construct rows state when each node is well formed. |
| TensorOps.Eval | include/matx_tensor_ops.h:73-1692 | No contract of its own: the definition of every node's call operator. The Laws rows state its behaviour node by node. |
| TensorOps.Reads | include/matx_tensor_ops.h:73-1692 | No contract of its own: the leaf accesses each call operator performs, in order. Bounds.ReadsInBounds and the read-order laws state its properties. |
| TensorOps.ReversedIndex | include/matx_tensor_ops.h:591-602 | HermitianTransOp's reversed coordinate tuple holds x[n - 1 - i] at position i. |
| Construct.InferSizes | include/matx_tensor_ops.h:1632-1645 | The constructor loop succeeds exactly when, in every dimension, each non-zero expanded operand size equals the MAX. Otherwise it fails with matxInvalidSize. The sizes it caches are those MAXes. |
| Construct.SizesAgreeIffMax | include/matx_tensor_ops.h:364-376 | For a node that caches the MAX, its size assertions hold exactly when every dimension agrees with the MAX. |
| Construct.BinarySizeIsMax | include/matx_tensor_ops.h:1640 | A binary node's size in each dimension is the MAX of its operands' expanded sizes. |
| Construct.IfSizeIsMax | include/matx_tensor_ops.h:288 | An IF node's size in each dimension is the MAX of its condition's and operator's expanded sizes. |
| Construct.IfElseSizeIsMax | include/matx_tensor_ops.h:371 | An IFELSE node's size in each dimension is the MAX of its three operands' expanded sizes. |
| Construct.MakeBinary | include/matx_tensor_ops.h:1632-1645 | Construction succeeds exactly for a well-formed node, with rank the larger operand rank; otherwise it fails with matxInvalidSize. On success each operand's expanded size is 0 or the node's size, and never exceeds it. |
| Construct.MakeIfElse | include/matx_tensor_ops.h:354-376 | Construction succeeds exactly for a well-formed IFELSE, whose rank is the largest operand rank. An operand of the wrong rank is rejected; once the ranks fit, a failure is matxInvalidSize. |
| Construct.MakeIf | include/matx_tensor_ops.h:270-290 | IF with its size check after the assignment succeeds exactly for a well-formed node, of the larger operand rank; once the ranks fit, a failure is matxInvalidSize. |
| Construct.MakeIfAsWritten | include/matx_tensor_ops.h:270-290 | IF as written accepts exactly when the ranks fit and, in every dimension, every non-zero candidate equals the old `size_` entry. |
| Construct.InferSizesAsWritten | include/matx_tensor_ops.h:280-290 | IF's loop as written: success depends on the stale array, and the cached sizes are still the MAXes. |
| Construct.MakeComma | include/matx_tensor_ops.h:76-114 | A comma node exists exactly when both statements have the same rank (otherwise matxInvalidSize); it has the second statement's rank and sizes. |
| Construct.ReverseFromEnd | include/matx_tensor_ops.h:498-541 | reverseX/Y/Z/W reverse dimension Rank - k and fail with matxInvalidDim exactly when Rank < k; rank and sizes are unchanged. |
| Construct.FlipLr | include/matx_tensor_ops.h:560-569 | fliplr reverses the last dimension and keeps rank and sizes. |
| Construct.FlipUdAsWritten | include/matx_tensor_ops.h:546-555 | flipud as written is rejected at rank 1, where its two returns deduce different types. At other ranks it reverses dimension Rank - 2. |
| Construct.FlipUd | include/matx_tensor_ops.h:546-555 | flipud as its rank-1 branch intends: dimension 0 at rank 1, Rank - 2 otherwise, with rank and sizes unchanged. |
| Construct.ShiftAlong | include/matx_tensor_ops.h:1063-1124 | shift0..3 build a node with the operand's rank and sizes. The model calls it well formed exactly when the dimension is below the rank and the normalising loops stop. The source does not check the dimension: a shift past the rank reads `Size(DIM)` beyond the operand's dimensions. |
| Construct.InterleavedAsWritten | include/matx_tensor_ops.h:1561-1617 | interleaved as written builds a usable node exactly for an operand of rank two or less; there it halves the split dimension and keeps the other sizes. At rank three or more it is rejected. |
| Construct.MakeInterleaved | include/matx_tensor_ops.h:1561-1617 | interleaved as intended, at every rank: rank kept, the split dimension halved with truncation, every other size kept. |
| Construct.MakeDiag | include/matx_tensor_ops.h:641-701 | The model builds diag exactly for an operand of rank one or more. The result has one dimension fewer; batch sizes pass through, and the last size is the smaller of the operand's last two. The source also instantiates `DiagOp<T, 0>` for a rank-0 operand, but its call operators and `Size` are disabled, so that node fails only when it is used. |
| Construct.MakeKron | include/matx_tensor_ops.h:711-774 | The model builds kron exactly for operands of equal rank two or more; each size is the product of the operands' sizes. The source's constructor checks only that A has rank two or more; a B of another rank fails only when a call operator indexes it. |
| Construct.RepMatUniform | include/matx_tensor_ops.h:797-803 | repmat with one count multiplies every size by it and keeps the rank. |
| Construct.RepMatEach | include/matx_tensor_ops.h:805-819 | repmat with a count array multiplies size d by reps[d]. |
| Laws.ReverseCoordsInvolution | include/matx_tensor_ops.h:446-481 | Reverse's coordinate rewrite, applied twice along the same dimension, is the identity. |
| Laws.ReverseInvolution | include/matx_tensor_ops.h:446-490 | Reversing twice yields the same value and performs the same reads as the operand. |
| Laws.ReverseMirrors | include/matx_tensor_ops.h:446-481 | A reversed node at x yields the operand at x with coordinate dim mirrored to N - 1 - x[dim]. |
| Laws.ReverseInRange | include/matx_tensor_ops.h:446-490 | x is in range for the reversed node exactly when its mirror is in range for the operand. |
| Laws.ShiftRotates | include/matx_tensor_ops.h:1003-1038 | A shifted node at an in-range x yields the operand at x with coordinate dim moved to (x[dim] + s) mod N, which is in range. |
| Laws.ShiftCoordsRoundTrip | include/matx_tensor_ops.h:1003-1038 | Shifting coordinates by s and then by -s restores every in-range tuple. |
| Laws.ShiftRoundTrip | include/matx_tensor_ops.h:980-1038 | Shift by -s then by s is well formed when the operand is, and yields the operand's value at every coordinate in range along the shifted dimension. |
| Laws.RotateAtInverse | include/matx_tensor_ops.h:1138-1376 | Rotating one coordinate forward then back is the identity; the rotation keeps the other coordinates and keeps that coordinate in range. |
| Laws.Shift1DCoordsInverse | include/matx_tensor_ops.h:1138-1308 | The 1-D fftshift and ifftshift rewrites undo each other. |
| Laws.Rotate2Inverse | include/matx_tensor_ops.h:1210-1228 | Rotating the last two coordinates forth and back gives back the tuple. |
| Laws.Shift2DCoordsInverse | include/matx_tensor_ops.h:1210-1364 | The 2-D fftshift and ifftshift rewrites undo each other. |
| Laws.FftShift1DRoundTrip | include/matx_tensor_ops.h:1138-1308 | ifftshift1D(fftshift1D(a)) equals a at every coordinate in range along the last dimension. |
| Laws.IfftShift1DRoundTrip | include/matx_tensor_ops.h:1138-1308 | fftshift1D(ifftshift1D(a)) equals a. |
| Laws.FftShift2DRoundTrip | include/matx_tensor_ops.h:1210-1364 | ifftshift2D(fftshift2D(a)) equals a at every coordinate in range along the last two dimensions. |
| Laws.IfftShift2DRoundTrip | include/matx_tensor_ops.h:1210-1364 | fftshift2D(ifftshift2D(a)) equals a. |
| Laws.FftShiftsAgreeOnEven | include/matx_tensor_ops.h:1138-1277 | On an even last extent, fftshift1D and ifftshift1D yield the same value. |
| Laws.ReversedInvolution | include/matx_tensor_ops.h:591-602 | Reversing a coordinate tuple twice gives it back. |
| Laws.HermitianInvolution | include/matx_tensor_ops.h:588-602 | The Hermitian transpose of the Hermitian transpose yields the operand's values. |
| Laws.HermitianReadsInvolution | include/matx_tensor_ops.h:588-602 | It also reads exactly what the operand reads. |
| Laws.HermitianSizes | include/matx_tensor_ops.h:608-611 | HermitianT(HermitianT(a)) has a's rank and sizes: a single Hermitian transpose reverses the sizes, and a second one restores them. |
| Laws.HermitianInRange | include/matx_tensor_ops.h:591-611 | x is in range for the Hermitian transpose exactly when the reversed x is in range for the operand. |
| Laws.DiagOfMatrix | include/matx_tensor_ops.h:649-676 | The diagonal of a matrix has rank 1 and size min(rows, cols); element i reads the in-range element (i, i). |
| Laws.DiagOfBatch | include/matx_tensor_ops.h:649-691 | At every rank from two, element (b.., c) of the diagonal is the operand's element (b.., c, c), and that element is in range. |
| Laws.DiagMatrixSize | include/matx_tensor_ops.h:671-675 | For every rank-2 operand and every `dim` >= 0, the diagonal's size is the smaller of the operand's two extents. |
| Laws.DiagSizeExample | include/matx_tensor_ops.h:671-675 | A 3 x 5 and a 5 x 3 matrix both have a diagonal of size 3, at every `dim` >= 0: the rank-2 size ignores `dim` and is the minimum in either orientation. |
| Laws.Kron2D | include/matx_tensor_ops.h:726-729 | Element (i, j) of a 2-D Kronecker product is B(i mod p, j mod q) * A(i div p, j div q). |
| Laws.KronBatched | include/matx_tensor_ops.h:724-739 | At every rank from two, Kron passes the batch coordinates unchanged to both operands and splits each of the last two by B's extent: B at the remainders times A at the quotients. |
| Laws.Kron2DInRange | include/matx_tensor_ops.h:726-749 | Both reads of an in-range 2-D Kronecker element are in range. |
| Laws.KronRectExample | test/test_vectors/generators/00_operators.py:15-16 | The 2 x 3 by 2 x 2 test case is 4 x 6, and its element (3, 5) is B(1, 1) * A(1, 2). |
| Laws.RepMatTiles | include/matx_tensor_ops.h:822-844 | A repmat element is the operand's element at every coordinate taken modulo the operand's extent, and those extents are positive. |
| Laws.RepMatInRange | include/matx_tensor_ops.h:822-844 | The wrapped coordinates of an in-range repmat element are in range for the operand. |
| Laws.RepMatPeriodic | include/matx_tensor_ops.h:822-834 | Moving one coordinate by the operand's extent does not change a repmat element. |
| Laws.PlanarLayout | include/matx_tensor_ops.h:1471-1517 | Planar doubles the split dimension; the first half yields the real part and the second half the imaginary part of the element one extent lower. |
| Laws.PlanarLowerInRange | include/matx_tensor_ops.h:1471-1517 | A lower-half planar coordinate is in range for the operand. |
| Laws.PlanarUpperInRange | include/matx_tensor_ops.h:1471-1517 | An upper-half planar coordinate, lowered by one extent, is in range for the operand. |
| Laws.LayoutSizes | include/matx_tensor_ops.h:1508-1591 | Planar doubles the split dimension and Interleaved halves it (rounding down, exactly on an even extent); all other sizes are unchanged. |
| Laws.InterleavedOfPlanar | include/matx_tensor_ops.h:1471-1591 | Interleaved(Planar(a)) yields a's complex element at every coordinate in range along the split dimension. At rank three or more it describes the intended operator: as written, that node does not compile (see Findings). |
| Laws.InterleavedPlanarSizes | include/matx_tensor_ops.h:1508-1591 | Interleaved(Planar(a)) has a's rank and sizes. |
| Laws.PlanarInterleavedSizes | include/matx_tensor_ops.h:1508-1591 | Planar(Interleaved(a)) has a's sizes when the split extent is even and positive. |
| Laws.RealPlaneOfInterleaved | include/matx_tensor_ops.h:1471-1591 | Below half the split extent, Planar(Interleaved(a)) yields the real part of a's element at the same coordinates. At rank three or more it describes the intended operator: as written, that node does not compile (see Findings). |
| Laws.ImaginaryPlaneOfInterleaved | include/matx_tensor_ops.h:1471-1591 | From half the split extent on, Planar(Interleaved(a)) also yields the real part of a's element at the same coordinates: the imaginary plane is read back from where Interleaved placed it. At rank three or more it describes the intended operator: as written, that node does not compile (see Findings). |
| Laws.PlanarOfInterleaved | include/matx_tensor_ops.h:1471-1591 | Planar(Interleaved(a)) equals a real-valued a on an even split extent. At rank three or more it describes the intended operator: as written, that node does not compile (see Findings). |
| Laws.CommaAssociative | include/matx_tensor_ops.h:80-104 | A comma chain yields its last statement's value and reads its statements left to right, however it is bracketed. |
| Laws.IfElseExtendsIf | include/matx_tensor_ops.h:293-412 | IFELSE(c, a, b) performs exactly the reads of IF(c, a) when the condition holds; when it fails, IF's reads followed by those of b. |
| Laws.IfElseSameBranches | include/matx_tensor_ops.h:379-412 | With the same statement in both branches, IFELSE reads the condition and then that statement, whatever the condition's value. |
| Laws.IfReadsPrefix | include/matx_tensor_ops.h:293-320 | IF reads what IFELSE reads when the condition holds and only the condition otherwise, so its reads are a prefix of IFELSE's. |
| Laws.UnaryPointwise | include/matx_tensor_ops.h:1426-1445 | A unary node applies its function to the operand's element at the same coordinates whenever j fits in 32 bits. |
| Bounds.BroadcastOperandInRange | include/matx_tensor_ops.h:1632-1680 | A broadcast operand with no empty dimension receives in-range leading coordinates. |
| Bounds.UnaryInRange | include/matx_tensor_ops.h:1426-1445 | A unary node's operand receives in-range coordinates while its second extent fits in 32 bits. |
| Bounds.CommaInRange | include/matx_tensor_ops.h:85-104 | Both statements of a comma receive in-range coordinates when the first is at least as large as the second. |
| Bounds.ReverseOpInRange | include/matx_tensor_ops.h:446-481 | A reversed node passes in-range coordinates to its operand. |
| Bounds.ShiftOpInRange | include/matx_tensor_ops.h:1003-1038 | A shifted node passes in-range coordinates to its operand. |
| Bounds.DiagInRange | include/matx_tensor_ops.h:644-691 | A diagonal node passes in-range coordinates to its operand (a rank-1 operand must be non-empty). |
| Bounds.KronInRange | include/matx_tensor_ops.h:726-749 | Kron passes in-range coordinates to both operands when its reported batch extents fit both. |
| Bounds.Shift1DInRange | include/matx_tensor_ops.h:1138-1308 | The 1-D fft shifts pass in-range coordinates to their operand. |
| Bounds.Shift2DInRange | include/matx_tensor_ops.h:1205-1364 | The 2-D fft shifts pass in-range coordinates to their operand. |
| Bounds.InterleavedInRange | include/matx_tensor_ops.h:1561-1591 | Both reads of an interleaved element are in range. At rank three or more it describes the intended operator: as written, that node does not compile (see Findings). |
| Bounds.PlanarOperandInRange | include/matx_tensor_ops.h:1471-1517 | The planar read, lowered in the upper half, is in range. |
| Bounds.ReadsInBounds | include/matx_tensor_ops.h:76-1692 | Every leaf read of an evaluation at an in-range coordinate of a well-formed node lands inside the leaf's descriptor, under the extra conditions collected in `Safe`. |
| Bulk.Assign | include/matx_tensor_ops.h:155 | `(out = in).run()`: the destination keeps its descriptor, every element inside its extents becomes the source's element, and every element outside is unchanged. |
| Bulk.Copy | include/matx_tensor_ops.h:144-156 | copy fails with matxInvalidSize exactly when some dimension's sizes differ. Otherwise every destination element inside its extents becomes the source's element, and nothing else changes. |
| Bulk.Transpose | include/matx_tensor_ops.h:177-213 | Rank 0 or 1 is a no-op. Otherwise a non-linear source throws matxInvalidSize; a linear one yields, at x, the source at x with its last two coordinates exchanged, and nothing outside the destination changes. |
| Bulk.SwapLast2Involution | include/matx_tensor_ops.h:177-213 | Exchanging the last two coordinates twice is the identity. |
| Bulk.TransposeReadsInside | include/matx_tensor_ops.h:177-213 | For a destination with the last two extents exchanged, x is inside it exactly when the swapped x is inside the source. |
| Bulk.TransposeRoundTrip | include/matx_tensor_ops.h:177-213 | Transposing twice through a correctly shaped intermediate gives back the source's elements. |
| Bulk.PermuteView | include/matx_tensor_ops.h:237-246 | The permuted view's dimension i has the operand's size and stride of dimension dims[i]. |
| Bulk.PermuteViewReads | include/matx_tensor_ops.h:237-246 | The permuted view at x reads the operand at the tuple whose coordinate dims[i] is x[i]. That tuple is inside the operand exactly when x is inside the view. |
| Bulk.Permute | include/matx_tensor_ops.h:237-246 | permute succeeds exactly when destination size i equals source size dims[i] (else matxInvalidSize). Every destination element then comes from the in-range permuted source element. |
| Align.AlignAddr | include/matx_tensor_ops.h:1696-1707 | The result is a 64-bit multiple of the alignment, and an already aligned address is returned unchanged. |
| Align.AlignAddrRoundsUp | include/matx_tensor_ops.h:1696-1707 | Away from the top of the address space the result is the least multiple of the alignment at or above addr: below addr + align, and equal to addr exactly when addr is aligned. |
| Align.AlignAddrWrapsAtTop | include/matx_tensor_ops.h:1699-1703 | At the top of the address space the 64-bit sum wraps: the last byte aligned to 2 becomes address 0. |
| Findings.IfAcceptsOnlyMatchingGarbage | include/matx_tensor_ops.h:280-290 | Two operands of the same shape form a well-formed IF, but the as-written check accepts them only when the stale `size_` entry already equals their size. |
| Findings.KronBatchReadsOutOfBounds | include/matx_tensor_ops.h:731-749 | Two rank-3 operands with two batches report four; batch 3 is in range for the node but reads outside the operand. |
| Findings.KronSizeIntended | include/matx_tensor_ops.h:746-749 | The intended Kron extent: in a batch dimension the operand's own extent (equal to B's when the batches match); in the last two dimensions the product KronOp reports. |
| Findings.KronIntendedInBounds | include/matx_tensor_ops.h:731-749 | With batch extents that are the operands' common extent, every Kron read at an in-range coordinate is inside its leaf. |
| Findings.FlipUdRankOne | include/matx_tensor_ops.h:546-555 | At rank 1 flipud as written is rejected, while the intended flipud mirrors the only dimension. |
| Findings.InterleavedBatchedRejected | include/matx_tensor_ops.h:1569-1576 | At rank three or more interleaved as written is rejected. The intended node pairs the element at x (real part) with the element half an extent further along dimension Rank - 2 (imaginary part). |
| Findings.UnaryIndexWraps | include/matx_tensor_ops.h:1441-1445 | An in-range element with j = 2^32 of a rank-4 unary node reads the operand at j = 0. |
| Findings.UnaryEvalIntended | include/matx_tensor_ops.h:1426-1445 | The unary node at full index width agrees with the node as written wherever j fits in 32 bits. |

## Left out

- Scalar numerics: the functions applied by unary and binary nodes, complex
  arithmetic, and the complex-times-scalar overloads. They are
  uninterpreted parameters. Element values are an abstract type with a
  negation (for `conj`), a product (for Kron) and a truth test (for
  IF/IFELSE conditions).
- The unary and binary operator macro table: each entry is one `Unary` or
  `Binary` node with a particular function, so the table adds nothing
  structural.
- CUDA kernel launch, streams and the transpose kernel (compiled only under
  `__CUDACC__`). Bulk operations are stated as their result after the work
  completes.
- `tensor_impl_t` is not part of this model, so its `IsLinear`,
  `TotalSize` and `Permute` are abstract:
  - `IsLinear` is a boolean parameter of `Bulk.Transpose`;
  - `Permute` is modelled as the dimension-reordered view, and its
    argument is required to be a permutation.
- `get_value`, `get_size` and `get_expanded_size` are not part of this
  model. They are modelled as the engine's calling convention:
  - a broadcast operand receives the leading coordinates;
  - an operand has expanded size 0 beyond its rank.
- The static assertions that reject tensor views as IF/IFELSE operands,
  the `enable_if` gates on complex element types, and half-precision types
  are not modelled. The gates do more than filter types for the layout
  round trips:
  - ComplexPlanarOp reports its complex operand's `scalar_type`
    (include/matx_tensor_ops.h:1467), so `interleaved(planar(t))` fails
    interleaved's real-only gate (include/matx_tensor_ops.h:1613);
  - ComplexInterleavedOp reports its real operand's `scalar_type`
    (include/matx_tensor_ops.h:1553), so `planar(interleaved(t))` fails
    planar's complex-only gate (include/matx_tensor_ops.h:1536).
  Laws.InterleavedOfPlanar, Laws.InterleavedPlanarSizes,
  Laws.PlanarInterleavedSizes, Laws.RealPlaneOfInterleaved,
  Laws.ImaginaryPlaneOfInterleaved and Laws.PlanarOfInterleaved therefore
  state what the two nodes' semantics give when composed, not a composition
  the library builds. `extract_scalar_type_t` is not part of this model; it
  is read as the operand's element type.
- `Eval` and `Reads` are total: on a node that fails `WellFormed` they
  still return a value, which no constructor lets a program observe.
- `include/matx_storage.h` and `include/matx_make.h` (buffer ownership and
  factory wrappers) are outside the engine.
- Bounds.ReadsInBounds: needs the hypotheses collected in `Bounds.Safe`,
  because the constructors do not check them:
  - a comma's first statement at least as large as the second;
  - a non-empty rank-1 diagonal operand;
  - Kron batch extents that fit both operands;
  - non-negative repetition counts;
  - no empty dimension under a broadcasting node;
  - a rank-4 unary operand whose second extent fits in 32 bits.
- Construct.MakeKron: rejects a B whose rank differs from A's when the node
  is built; the source rejects it only when a call operator indexes B.
- Construct.MakeDiag: rejects a rank-0 operand when the node is built; the
  source instantiates that node and fails only when it is used.
- Construct.ShiftAlong: a dimension at or past the operand's rank is
  ill-formed in the model; the source does not check it, and such a node
  reads sizes beyond the operand's dimensions.
- `Interleaved` at rank three or more: the laws about its values and reads
  describe the intended operator, because the code as written does not
  compile there (see Findings).
- `index_t` overflow: the source's index type is a signed 64-bit integer;
  the model's integers are unbounded. It assumes no overflow in Kron's
  `SizeA(d) * SizeB(d)`, RepMat's size times the count, Planar's doubled
  size, ShiftOp's `-shift` and `base_ + i`. Extents that large are not
  modelled.
- Align.AlignAddr: the alignment is any positive 64-bit value, not only a
  power of two. The laws hold either way, so the narrower type is not
  assumed.

## Findings

| source | as written | input that shows it | evidently intended | confidence | as-written member | corrected member |
|---|---|---|---|---|---|---|
| include/matx_tensor_ops.h:284-288 | IF asserts each operand size against `Size(i)`, which reads `size_[i]` before it is assigned | condition and operator both of shape [3]; the uninitialised `size_[0]` holds anything but 3 | assign the MAX first, then assert, as IFELSE and matxBinaryOp do | medium, not executed | Construct.MakeIfAsWritten, Findings.IfAcceptsOnlyMatchingGarbage | Construct.MakeIf |
| include/matx_tensor_ops.h:731-749 | KronOp reports SizeA(d) * SizeB(d) for batch dimensions but passes the batch coordinate unchanged to both operands | A and B of shape [2, 1, 1]; element (3, 0, 0) is in range (batch extent 4) and reads B and A at batch 3 | batch extents equal to the operands' common extent | high, not executed | Findings.KronBatchReadsOutOfBounds | Findings.KronSizeIntended, Findings.KronIntendedInBounds |
| include/matx_tensor_ops.h:546-555 | flipud's rank-1 `if constexpr` has no `else`, so the second return (ReverseOp<T1, -1>) is also instantiated with a different type | any rank-1 operand | reverse dimension 0 at rank 1 | high, not executed | Construct.FlipUdAsWritten | Construct.FlipUd, Findings.FlipUdRankOne |
| include/matx_tensor_ops.h:1569-1576 | ComplexInterleavedOp's rank-3 and rank-4 call operators return a braced list from a function whose return type is deduced, which C++ rejects once the operator is instantiated | a real rank-3 operand passed to `interleaved` and evaluated | return `complex_type{…}`, as the rank-1 and rank-2 operators do | high, not executed | Construct.InterleavedAsWritten, Findings.InterleavedBatchedRejected | Construct.MakeInterleaved, Laws.InterleavedOfPlanar |
| include/matx_tensor_ops.h:1441 | the four-index call operator of matxUnaryOp declares `j` as `uint32_t` where every other operator uses `index_t` | a rank-4 operand with 2^32 + 1 elements in dimension 1, element (0, 2^32, 0, 0) | `index_t j`, as in the other call operators | low, not executed | Findings.UnaryIndexWraps | Findings.UnaryEvalIntended |

The expression model keeps the behaviour as written, with one exception: an
`Interleaved` node of rank three or more evaluates as the intended operator,
because as written it does not compile. `Construct.InterleavedAsWritten`
rejects such a node. The other corrected definitions sit beside the model in
`Findings`, and
`Bounds.ReadsInBounds` states as hypotheses the conditions under which the
as-written nodes read in bounds.
