# Affine body dynamics with penalty contact, in Dafny

This project models the simulation core of an affine-body-dynamics simulator. Each rigid
body is one affine "element". Its pose is a 3x4 matrix [F | t], stored as 12 numbers row
by row: entries 0-2, 4-6 and 8-10 hold the linear part F, and entries 3, 7 and 11 hold the
translation t. A rest-space point X moves to F X + t = J(X) q. J(X) is the 3x12
kinematic Jacobian.

One implicit time step works as follows:

1. It sweeps every ordered pair of distinct bodies for vertex-against-mesh contacts.
2. It compacts the per-vertex detection records into a bounded contact list, using an
   atomic counter.
3. It records a 4-entry sparsity group for each pair that found contacts.
4. It predicts the inertial pose p = q + (q − q_prev) + h² g.
5. It hands Newton's method three callbacks, for the energy, the gradient and the Hessian.

The gradient callback returns M (q − p) + h² (g_E + g_C) and the Hessian callback
M + h² (H_E + H_C). Here E is the elastic energy c‖FᵀF − I‖² of every body, and C is the
penalty energy k (n · (x_b − x_a))² of every contact. The model covers the following:

- **Data model:** poses, contact records, the compaction state and the scene state.
- **Configuration:** how a body's initial pose and previous pose come from its
  configuration, and how setup and reset fill the global state.
- **Kinematics:** the Jacobian and its transpose, and the mapping of rest-space vertices
  to the world.
- **Pinned blocks:** the projection that removes pinned blocks, and its triplet layout.
- **Contact detection and reduction:** detection of one vertex against a mesh, and the
  parallel reduction into the contact list, for every thread order.
- **Kernels:** the elastic and penalty energy, gradient and Hessian kernels, with
  atomic accumulation modelled as a fold over an arbitrary permutation of the threads.
- **Contact sweep:** the sweep over body pairs and the sparsity pattern it builds.
- **Step system:** the exact expansion of the step objective. The gradient callback's
  vector is its first-order term. The system matrix with the contact Hessian assembled
  from per-contact triplets is its second-order term. The Hessian callback's own zip yields
  that corrected assembly whenever every pair's detection stores at most one record and
  that record names the pair's own bodies (`Simulator.FindContactsZip`). A detection that
  counts a stale record of another pair breaks this (`Collision.StaleSlotCounted`).

The assignment kernels' bodies are placeholders. The model therefore follows the formulas
stated in their documentation. Those formulas disagree about the elastic constant: one
writes ½k‖FᵀF − I‖², the other (k/2) tr(E²) with E = ½(FᵀF − I), and the two differ by a
factor of four (`Elastic.EnergyScales`). The model uses one constant c, shared by the
energy, the gradient and the Hessian.

Reals stand for floating point throughout. Each module's functions are total on the
inputs the source accepts. Error paths are modelled where the source has them: an
out-of-range thread does nothing, a full contact list drops records but keeps counting,
a missing configuration entry takes its default, and a step whose contact pairs outgrow the
sparsity-pattern table raises, which `Simulator.SearchContacts` returns as no result.

Files:

| file | module | what |
|---|---|---|
| linalg.dfy | LinAlg | vectors and matrices as sequences: sums, dot products, bilinear forms |
| geometry.dfy | Geometry | 3-vectors, 3x3 matrices, Frobenius product |
| kinematics.dfy | Kinematics | pose layout, world map, kinematic Jacobian and its transpose |
| sim_object.dfy | SimObject | one body's configuration defaults, initial dofs, deformed vertices |
| fixed_dof_projection.dfy | FixedDofProjection | the pinned-block projection |
| atomics.dfy | Atomics | atomic accumulation under any thread order |
| collision.dfy | Collision | per-vertex detection and the buffer reduction |
| elastic.dfy | Elastic | elastic energy, gradient, Hessian and their kernels |
| penalty.dfy | Penalty | penalty spring energy, gradient, Hessian blocks and their kernels |
| simulator.dfy | Simulator | setup, reset, gravity, pins, prediction, the contact sweep, triplet assembly |
| step_system.dfy | StepSystem | the step objective and the callbacks' relation to it |

## Model

| member | source | states |
|---|---|---|
| SimObject.InitialPoseLayout | sim_object.py:56-57 | q holds the top three rows of the transform, row by row, so its translation is the transform's last column |
| SimObject.InitialVelocityRecovered | sim_object.py:56-59 | the previous pose has the same linear part as q, and the backward difference of the translations is dt times the initial velocity |
| SimObject.InitialAtRest | sim_object.py:58-59 | with zero initial velocity the previous pose equals the pose |
| SimObject.DefaultInitialState | sim_object.py:22-30 | a body configured with neither transform nor velocity starts at the identity pose, at rest |
| SimObject.PinnedDefault | sim_object.py:32-38 | a body pins nothing exactly when its pinned list is missing or empty, and otherwise keeps the configured list |
| SimObject.DeformedVerticesJacobian | sim_object.py:61-62 | every deformed vertex is J(X) q = F X + t of its rest vertex |
| SimObject.DeformedVerticesIdentity | sim_object.py:61-62 | the identity pose leaves every vertex where it is |
| SimObject.DeformedVerticesTranslate | sim_object.py:61-62 | translating the pose by τ moves every deformed vertex by τ |
| Kinematics.PoseRoundTrip | assignment/kinematic_jacobian.py:8-11 | packing F and t into the 12-entry layout and reading them back returns F and t |
| Kinematics.PoseOfParts | assignment/kinematic_jacobian.py:8-11 | every 12-entry vector is the packing of its own linear part and translation |
| Kinematics.JacobianRows | assignment/kinematic_jacobian.py:17-20 | row r of J(X) is 4r zeros, then [X, 1], then 8 − 4r zeros |
| Kinematics.JacobianEntries | assignment/kinematic_jacobian.py:17-20 | entry (r, c) of J(X) is the homogeneous coordinate c mod 4 of X when c div 4 = r, and zero otherwise |
| Kinematics.JacobianApply | assignment/kinematic_jacobian.py:13-15 | J(X) q is the world position F X + t |
| Kinematics.JacobianLinear | assignment/kinematic_jacobian.py:13-15 | J(X) q is linear in q: it maps sums to sums and scalings to scalings |
| Kinematics.TranslateShiftsWorld | assignment/kinematic_jacobian.py:8-11 | translating a pose by τ keeps F, adds τ to t and moves every world point by τ |
| Kinematics.IdentityPoseFixes | assignment/kinematic_jacobian.py:8-11 | the identity pose maps every point to itself |
| Kinematics.JacobianTransposeAdjoint | assignment/kinematic_jacobian.py:28-29 | J(X)ᵀ n is the adjoint of J(X): its dot product with any q equals n · J(X) q |
| Kinematics.NormalComponent | assignment/kinematic_jacobian.py:28-29 | (J(X)ᵀ n) · q is the normal component n · (F X + t) of the world point |
| Kinematics.JacobianTransposeTranslation | assignment/kinematic_jacobian.py:28-29 | the translation entries 3, 7 and 11 of J(X)ᵀ n are n itself |
| Kinematics.JacobianGramBlocks | assignment/kinematic_jacobian.py:17-20 | J(X)ᵀ J(X) is block diagonal, with three copies of [X, 1][X, 1]ᵀ |
| FixedDofProjection.FreeIndices | given/fixed_dof_projection.py:10-13 | the free blocks are exactly the block indices below n that are not pinned, in increasing order |
| FixedDofProjection.ProjectionTriplets | given/fixed_dof_projection.py:15-18 | row r of the projection has its identity block at the column of the r-th free block, which is in range and not pinned |
| FixedDofProjection.ProjectExpand | given/fixed_dof_projection.py:15-18 | P Pᵀ is the identity on reduced vectors |
| FixedDofProjection.ExpandProject | given/fixed_dof_projection.py:15-18 | Pᵀ P zeroes every pinned block and keeps every free block |
| FixedDofProjection.ProjectionIdempotent | given/fixed_dof_projection.py:15-18 | applying Pᵀ P twice is the same as applying it once |
| FixedDofProjection.NoFixedIdentity | given/fixed_dof_projection.py:10-18 | with nothing pinned, every block is free and P is the identity |
| FixedDofProjection.FreeCount | given/fixed_dof_projection.py:10-13 | the free blocks and the distinct in-range pinned blocks together number n |
| FixedDofProjection.PinnedCountBound | given/fixed_dof_projection.py:8 | the distinct in-range pinned blocks are at most as many as the pinned list, and exactly as many iff the list is duplicate-free and in range |
| FixedDofProjection.RowCountMatches | given/fixed_dof_projection.py:8-16 | the declared row count n − len(pinned) equals the number of triplet rows iff the pinned list is duplicate-free and in range |
| Atomics.AtomicAddsSum | assignment/elastic_energy.py:28-29 | a sequence of atomic adds into one cell adds the sum of the values in the order they land |
| Atomics.AtomicAddsOrderIndependent | assignment/elastic_energy.py:28-29 | whatever permutation the threads run in, the cell ends at its start value plus the sum of all values |
| Collision.DetectVertex | given/object_pair_collision_detection.py:86-96 | the record of a vertex carries that vertex as ref_pos_1 and the two body ids, and its flag is 0 or 1 |
| Collision.DetectVertexGeometry | given/object_pair_collision_detection.py:58-92 | the closest point is b's pose applied to ref_pos_2, and the distance is non-negative and squares to the squared world distance |
| Collision.LocalPointRoundTrip | given/object_pair_collision_detection.py:70-72 | when the inverse is a right inverse of A2, pulling the world vertex into b's rest space and pushing it back returns it |
| Collision.DetectVertexValid | given/object_pair_collision_detection.py:96 | a record is valid iff its world distance is at most ε and the query reports the point inside |
| Collision.DetectVertexOutside | given/object_pair_collision_detection.py:96 | when the query never reports inside, no record is valid |
| Collision.DetectAllSlots | given/object_pair_collision_detection.py:39-44 | the detection launch writes the record of a's vertex i into slot i and leaves the slots past a's vertex count unchanged |
| Collision.ReduceEffect | given/object_pair_collision_detection.py:149-159 | the counter grows by the number of valid threads, the k-th valid thread's record lands at old count + k when that is below capacity, and no other slot changes |
| Collision.ValidThreadsCount | given/object_pair_collision_detection.py:153 | a thread claims an index exactly as often as it runs, when its slot is valid, and never otherwise |
| Collision.ValidThreadsPermutation | given/object_pair_collision_detection.py:149-159 | two orders of the same threads have the same valid threads |
| Collision.ReducedSlots | given/object_pair_collision_detection.py:156-159 | within capacity, the newly filled segment holds the valid threads' records in the order they claimed indices |
| Collision.ReduceOrderIndependent | given/object_pair_collision_detection.py:149-166 | for any thread order the counter grows by the number of valid records; within capacity, the new segment is a permutation of the valid records |
| Collision.ReduceOverflow | given/object_pair_collision_detection.py:156-159 | a list with no room keeps counting every valid record and writes none |
| Collision.DetectCollisionsCount | given/object_pair_collision_detection.py:134-171 | the returned count grows by the number of valid slots in the whole buffer after detection |
| Collision.StaleSlotCounted | given/object_pair_collision_detection.py:153-166 | a concrete scene where a detection that finds nothing still appends a valid record left by an earlier pair |
| Collision.StaleSlotRecounted | given/object_pair_collision_detection.py:153-166 | a valid record left past a's vertex count is appended again, even when no vertex of a touches b |
| Collision.DetectCollisionsFreshContacts | given/object_pair_collision_detection.py:134-171 | reducing only the slots this detection wrote grows the counter by a's vertices in contact, and every appended record is a valid contact of (a, b) at one of a's vertices |
| Collision.WorldNormalNotUnit | given/object_pair_collision_detection.py:84 | for A2 = 2I the stored normal of a unit face normal has squared length 1/4 |
| Collision.UnitWorldNormalIsUnit | given/object_pair_collision_detection.py:84 | the normalised A2⁻ᵀ n has unit length and points the same way, whenever it is not zero |
| Elastic.GramPerturb | assignment/elastic_energy.py:8-11 | (F + D)ᵀ(F + D) − I is (FᵀF − I) + (FᵀD + DᵀF) + DᵀD |
| Elastic.StrainSymmetric | assignment/elastic_energy.py:15-16 | the strain FᵀF − I is symmetric |
| Elastic.IsometryStrain | assignment/elastic_energy.py:15-16 | the strain vanishes at every F with FᵀF = I |
| Elastic.EnergyScales | assignment/denergy_dq.py:8-13 | the two documented energy formulas are the model's energy with c = k/2 and with c = k/8; one is four times the other |
| Elastic.GradientDirectional | assignment/denergy_dq.py:25-27 | the gradient's inner product with a direction D is 2c⟨FᵀF − I, FᵀD + DᵀF⟩, the first-order change of the energy |
| Elastic.HessianDiagonal | assignment/d2energy_dq2.py:1-13 | the Hessian form along D is 2c(‖FᵀD + DᵀF‖² + 2⟨FᵀF − I, DᵀD⟩) |
| Elastic.EnergyExpansion | assignment/d2energy_dq2.py:1-13 | the energy at F + D is energy + gradient·D + ½ Hessian form + a remainder of degree three and four in D |
| Elastic.HessianFormSymmetric | assignment/d2energy_dq2.py:25-26 | the Hessian form is symmetric in its two directions |
| Elastic.RestHessianSemidefinite | assignment/d2energy_dq2.py:25-26 | at the rest shape F = I and for c ≥ 0 the Hessian form is never negative |
| Elastic.RestHessianNullDirection | assignment/d2energy_dq2.py:25-26 | at F = I every antisymmetric direction, an infinitesimal rotation, has zero Hessian form |
| Elastic.RestHessianNotDefinite | assignment/d2energy_dq2.py:25-26 | there is a nonzero direction with zero Hessian form at F = I |
| Elastic.BodyEnergyNonNegative | assignment/elastic_energy.py:8-13 | a body's energy is non-negative for a non-negative constant |
| Elastic.BodyEnergyZeroAtIsometry | assignment/elastic_energy.py:15-16 | a body whose linear part is a rotation or reflection has zero energy |
| Elastic.RestPoseEnergy | assignment/elastic_energy.py:15-16 | the identity linear part has zero energy at any translation |
| Elastic.BodyGradientZeroAtIsometry | assignment/denergy_dq.py:25-27 | the gradient is zero when the linear part is a rotation or reflection |
| Elastic.BodyElasticTranslationInvariant | assignment/elastic_energy.py:23-26 | energy, gradient and Hessian do not change when the pose is translated |
| Elastic.BodyGradientTranslationZero | assignment/denergy_dq.py:25-27 | the gradient's translation entries 3, 7 and 11 are zero |
| Elastic.BodyGradientDirectional | assignment/denergy_dq.py:25-27 | the 12-entry gradient's dot product with d is the first-order change along the linear part of d |
| Elastic.BodyEnergyExpansion | assignment/d2energy_dq2.py:1-13 | a body's energy at q + d is energy + gradient·d + ½ Hessian form + the degree three and four remainder |
| Elastic.BodyHessianSymmetric | assignment/d2energy_dq2.py:25-26 | the 12x12 Hessian is symmetric |
| Elastic.BodyHessianTranslationZero | assignment/d2energy_dq2.py:25-26 | rows and columns 3, 7 and 11 of the Hessian are zero |
| Elastic.BodyHessianQuadratic | assignment/d2energy_dq2.py:15-16 | dᵀ H d for the 12x12 Hessian equals the Hessian form along the linear part of d |
| Elastic.EnergyKernelTotal | assignment/elastic_energy.py:28-44 | one launch over all bodies adds the total elastic energy to the cell, whatever the thread order |
| Elastic.GradientKernel | assignment/denergy_dq.py:32-42 | after the launch, slot b holds body b's gradient, whatever the buffer held before |
| Elastic.HessianKernel | assignment/d2energy_dq2.py:32-44 | after the launch, block b holds body b's Hessian, whatever the buffer held before |
| Penalty.DepthLinear | assignment/penalty_spring.py:10-19 | the depth n · (x_b − x_a) is (J(X_b)ᵀ n)·q_b − (J(X_a)ᵀ n)·q_a |
| Penalty.SpringEnergy | assignment/penalty_spring.py:8-9 | k d² is non-negative for k ≥ 0 and zero at zero depth |
| Penalty.EnergyExpansion | assignment/penalty_spring.py:8-19 | the contact energy is exactly quadratic: at (q_a + d_a, q_b + d_b) it is energy + gradients·d + ½ four-block form |
| Penalty.GradientDirectional | assignment/dpenalty_spring_dq.py:8-14 | the two gradient blocks' work along (d_a, d_b) is 2kd times the change in depth |
| Penalty.EnergyNormalNegation | assignment/penalty_spring.py:8-11 | flipping the normal flips the depth and keeps the energy |
| Penalty.EnergyTranslationInvariant | assignment/penalty_spring.py:10-13 | translating both bodies by the same τ keeps the depth and the energy |
| Penalty.GradientTranslationOpposite | assignment/dpenalty_spring_dq.py:24-28 | the translation parts of the two gradient blocks are 2kd n on b and its negation on a: equal and opposite forces |
| Penalty.GradientZeroAtZeroDepth | assignment/dpenalty_spring_dq.py:8-11 | at zero depth both gradient blocks are zero |
| Penalty.HessianBlocksSymmetric | assignment/d2penalty_spring_dq2.py:28-33 | H_aa and H_bb are symmetric and H_ba is the transpose of H_ab |
| Penalty.ContactFormValue | assignment/d2penalty_spring_dq2.py:9-14 | the four blocks' form at (d_a, d_b) is 2k(u_a·d_a − u_b·d_b)² with u = J(X)ᵀ n, non-negative for k ≥ 0 |
| Penalty.EnergyLaunchTotal | assignment/penalty_spring.py:41-59 | a launch of dim threads adds the energies of the first min(dim, list length) contacts in any order; for k ≥ 0 and a non-negative starting cell the result is non-negative |
| Penalty.GradientThreadEffect | assignment/dpenalty_spring_dq.py:35-50 | a thread adds its contact's two gradient blocks to the two bodies' blocks and changes nothing else; a thread past the list does nothing |
| Penalty.GradientLaunchOrderIndependent | assignment/dpenalty_spring_dq.py:27-28 | the gradient launch's result is the same for every order of the same threads |
| Penalty.GradientLaunchBalanced | assignment/dpenalty_spring_dq.py:27-28 | the launch leaves the sum of the blocks' translation parts unchanged: contact forces are internal |
| Penalty.HessianThreadEffect | assignment/d2penalty_spring_dq2.py:40-62 | a thread adds its contact's four blocks into its four slots and leaves every other slot unchanged |
| Penalty.HessianLaunchValues | assignment/d2penalty_spring_dq2.py:40-62 | on a zeroed buffer, a launch of dim threads leaves contact c's four blocks in slots 4c..4c+3 for c < dim and zeros everywhere else |
| Simulator.ResetBodiesEffect | simulator.py:109-111 | after the loop has reset the first m bodies, those hold their initial states and the others are unchanged |
| Simulator.ResetRestoresSetup | simulator.py:107-111 | reset from any state gives the state setup produced, and resetting twice is resetting once |
| Simulator.SetupAtRest | simulator.py:88-96 | when no body has an initial velocity, the previous pose equals the pose after setup |
| Simulator.TotalDofs | simulator.py:65-66 | the total dof count times the block size is 12 per body |
| Simulator.GravityLayout | simulator.py:70-72 | every gravity block has the acceleration in entries 3, 7 and 11 and zeros elsewhere, so zero linear part |
| Simulator.GlobalPinnedMembers | simulator.py:98-100 | a global block is pinned iff body i pins local block x − i |
| Simulator.LocalPinsSingleBlock | sim_object.py:47-51 | a body with one dof block has a duplicate-free, in-range pinned list iff that list is [0] |
| Simulator.GlobalPinnedWellFormed | simulator.py:98-100 | the scene's pinned list is duplicate-free and in range when each body's list is |
| Simulator.ScenePinnedProjection | simulator.py:103-104 | the scene projection's row count agrees with its triplets, and block i is free iff body i is not pinned |
| Simulator.PredictParts | simulator.py:148 | the prediction has linear part F + (F − F_prev) and translation t + (t − t_prev) + h² g |
| Simulator.PredictAtRest | simulator.py:148 | without gravity a scene at rest predicts its own pose |
| Simulator.PredictFreeFall | simulator.py:148 | a body at rest is predicted with the same linear part and a translation moved by h² g |
| Simulator.RotateInertial | simulator.py:194-197 | when the solve returns the prediction, each body keeps its velocity plus h² g |
| Simulator.OrderedPairs | simulator.py:122-124 | the sweep visits exactly the ordered pairs of distinct bodies, each once, by first body and then by second body |
| Simulator.SweepPairPattern | simulator.py:125-141 | a pair adds the group (a, a), (b, b), (a, b), (b, a) to the pattern if and only if its detection raised the counter, and otherwise leaves the pattern unchanged |
| Simulator.SweepPattern | simulator.py:122-141 | along the sweep the pattern stays a sequence of such groups closed under transposition, and it gains no more groups than the counter gains contacts |
| Simulator.SweepGroups | simulator.py:122-141 | the pattern a sweep records is the group of each pair whose detection raised the counter, in visiting order, and nothing else |
| Simulator.FindContactsPattern | simulator.py:114-141 | after the sweep the pattern is the groups of exactly those ordered pairs whose detection raised the counter, in sweep order; it is closed under transposition and has at most as many groups as the counter has contacts |
| Simulator.SearchContacts | simulator.py:84 | a search that returns has a pattern no longer than the index table of 4·max_contact_pairs rows |
| Simulator.SearchContactsFails | simulator.py:130-141 | the pattern writes raise exactly when more than max_contact_pairs ordered pairs raise the counter; otherwise the search returns the full sweep |
| Simulator.FindContactsQuiet | simulator.py:114-141 | with a clean buffer and no vertex in contact, the step finds no contacts and an empty pattern |
| Simulator.ContactTripletsAt | assignment/d2penalty_spring_dq2.py:28-33 | triplet 4c + j of the per-contact assembly is labelled (a, a), (b, b), (a, b), (b, a) for j = 0..3 and carries block j |
| Simulator.ZipDropsContact | simulator.py:187 | two contacts of one pair yield a single pattern group, and zipping it with the values keeps only the first contact's blocks |
| Simulator.ZipMislabels | simulator.py:187 | zipping a two-group pattern with three contacts' values labels the second (0, 1) contact's H_aa as block (1, 1) |
| Simulator.ContactTripletsFromLaunch | simulator.py:181-187 | after a launch of one thread per counted contact into a zeroed buffer, in any order and also when the counter has passed the list's capacity, zipping the per-contact pattern of the stored contacts with the values gives each stored contact's four labelled blocks |
| Simulator.SweepPairStored | simulator.py:126-141 | a pass that counts nothing, or counts and stores one record naming its own pair, keeps the pattern equal to one group per stored contact |
| Simulator.SweepStoredPattern | simulator.py:122-141 | along a sweep whose every pass stores at most one record, naming its own pair, the pattern stays one group per stored contact, and the list keeps its capacity |
| Simulator.FindContactsZip | simulator.py:122-187 | when every pair's detection stores at most one record naming that pair's bodies, the step's pattern is the per-contact pattern of the stored contacts, and the Hessian callback's zip of it with a launch of one thread per counted contact is the corrected triplets |
| Simulator.GroupTripletsForm | simulator.py:187 | one contact's four triplets contribute that contact's four-block form |
| Simulator.ContactTripletsForm | simulator.py:187 | the assembled sparse contact Hessian's form at ds is the sum of the contacts' four-block forms |
| Simulator.ContactFormsNonNegative | assignment/d2penalty_spring_dq2.py:9-14 | the contact Hessian's form is non-negative for k ≥ 0 |
| StepSystem.GradientLaunchDot | assignment/dpenalty_spring_dq.py:27-28 | the result of a gradient launch of dim ≥ (list length) threads, dotted with ds, is the atomic sum of the contacts' first-order changes, with zero for each thread past the list |
| StepSystem.ContactGradientWork | simulator.py:170-172 | after zeroing and a launch of dim ≥ (list length) threads in any order, which covers a counter past the list's capacity, g_C · ds is the sum of the stored contacts' first-order changes |
| StepSystem.ContactExpansion | assignment/penalty_spring.py:8-19 | moving every body by ds changes a contact's energy by exactly its gradient work plus half its four-block form |
| StepSystem.ContactEnergiesExpansion | simulator.py:159 | the h²-scaled total contact energy at q + ds is its value at q, plus the scaled works, plus half the scaled forms |
| StepSystem.BodyExpansion | assignment/d2energy_dq2.py:1-13 | a body's energy at q + d is energy + gradient·d + ½ dᵀ H d + the degree three and four remainder |
| StepSystem.ElasticExpansion | simulator.py:155-156 | the h²-scaled total elastic energy at q + ds expands into the scaled gradient terms, half the scaled Hessian forms and the scaled remainders |
| StepSystem.InertiaExpansion | simulator.py:173 | the inertial energy ½ Σ (q − p)ᵀ M (q − p) at q + ds gains M(q − p)·ds and ½ dsᵀ M ds |
| StepSystem.ResidualDot | simulator.py:173 | the gradient callback's vector dotted with ds splits into the inertial, elastic and contact parts, the last two scaled by h² |
| StepSystem.PotentialParts | simulator.py:164-173 | the step objective at q + ds is its value at q plus the first-order terms, plus half the second-order terms, plus the h²-scaled remainders |
| StepSystem.ResidualParts | simulator.py:164-173 | the gradient callback's vector, with g_E from the elastic kernel and g_C from a contact launch of dim ≥ (list length) threads in any order, gives exactly the objective's first-order terms along ds |
| StepSystem.SystemFormParts | simulator.py:175-191 | dsᵀ (M + h²(H_E + H_C)) ds, with H_C assembled from per-contact triplets, is exactly the objective's second-order terms |
| StepSystem.StepExpansion | simulator.py:164-191 | Φ(q + ds) = Φ(q) + r·ds + ½ dsᵀ A ds + h² × the elastic remainder, with r the gradient callback's value (its contact launch of dim ≥ (list length) threads in any order) and A the system form assembled from per-contact triplets (the corrected assembly, which the callback's own zip at simulator.py:187 yields when each pair's detection stores at most one record, naming that pair's bodies: Simulator.FindContactsZip) |
| StepSystem.ExactQuadraticWithoutElasticity | simulator.py:164-191 | without elasticity the step objective is exactly the quadratic given by the gradient callback and the system form with per-contact triplets |
| StepSystem.TranslatedEnergyFunc | simulator.py:153-162 | the energy callback does not change when a contact-free body is translated |
| StepSystem.TranslationResidual | simulator.py:173 | for a body displaced from its prediction by a translation d, the gradient callback's vector dotted with d is dᵀ M d |
| StepSystem.EnergyCallback | simulator.py:153-162 | zeroing the cell, running the elastic kernel over the bodies and then the penalty launch of dim threads, each in any order, leaves EnergyFunc of the first min(dim, list length) contacts: the elastic plus contact energies |
| StepSystem.EnergyFuncMissesInertia | simulator.py:153-162 | the energy callback is constant along a translation on which the gradient callback's slope dᵀ M d is positive |

## Left out

- Newton's method (`newtons_method`, in assignment/newtons_method.py) is not part of this model. It covers the linear solves, the line search and the convergence test. `Simulator.Rotate` takes the solved pose as a parameter.
- The mass-matrix kernel `mass_matrix_abd_object` and the per-body volumes are not part of this model. The mass blocks are a parameter of the step system, required to be symmetric 12x12 matrices.
- Volume weighting of the elastic energy is not modelled. The kernel documentation's formula does not weight by volume, so the constant c stands for the stiffness and any weight.
- The stiffness value 1e8 quoted in the documentation is not fixed. c is a parameter.
- Mesh loading, configuration parsing, devices, dtypes and the Warp mesh objects are left out. A body's rest vertices are a sequence parameter.
- The closest-point query, `wp.inverse` and `wp.length` are foreign calls. They are fields of `Collision.Services`. The scene holds one `Services` value per body (the `meshes` parameter of the sweep), and pair (a, b) queries `meshes[b]`, as the step passes the target body's own mesh.
- `Collision.LocalPointRoundTrip` requires that the inverse service returns a right inverse, because an inverse that fails on singular A2 is outside this model.
- The query's `max_dist` argument (0.2 at the call site) and its `epsilon` argument (given/object_pair_collision_detection.py:79) belong to the query service and are not separate parameters. The model therefore lets the query's ε differ from the ε of the validity test.
- The float32 rounding of the query point and all floating-point rounding are not modelled. Reals stand for float64 and float32 throughout.
- The BSR block-sparse storage is not modelled. The contact Hessian is kept as its list of (row, column, block) triplets, and its form sums over the triplets, as BSR assembly from triplets sums duplicates.
- GPU concurrency is modelled as a fold over an arbitrary permutation of the thread indices. Interleavings inside one thread are not modelled; each atomic add is one step.
- The assignment kernels' bodies are placeholders. The model follows the formulas in their documentation, not the placeholder bodies that write zeros.
- The Hessian callback passes `self.q` rather than its argument to the contact-Hessian launch (simulator.py:183). This is not modelled as a difference, because the penalty Hessian blocks do not depend on the pose (`Penalty.HessDiag` and its siblings take no pose).
- Simulator.ZipTriplets requires the pattern to be no longer than the value buffer. Both tables have 4·max_contact_pairs rows (simulator.py:84-85). The slice at simulator.py:187 never fails. The writes at simulator.py:132-139 raise once more than max_contact_pairs pairs record contacts, and `Simulator.SearchContacts` models that failure. Every search that returns therefore meets the requirement.
- The non-rigid branch of the object constructor is not modelled. It prints a message and exits the process.
- The h² scaling of the elastic and contact terms is written entry by entry (`Sum(Scale(h², v))`) rather than as one factor outside the sum. The two are equal by `LinAlg.SumScale`.
- `transform_mesh`, the command-line driver, the rendering and the tests are outside the simulation core.

## Findings

| source | as written | input that shows it | evidently intended | confidence | as-written member | corrected member |
|---|---|---|---|---|---|---|
| given/object_pair_collision_detection.py:153-166 | the reduction runs over the whole detection buffer, sized for the largest mesh, but detection only rewrites the first (vertex count of a) slots | a one-vertex body a after a pair that left a valid record in slot 1: the reduction appends that stale record although a's vertex is not in contact | reduce only the slots this detection wrote | not executed | Collision.StaleSlotCounted | Collision.DetectCollisionsFreshContacts |
| given/object_pair_collision_detection.py:84 | the stored contact normal is A2⁻ᵀ n without normalisation, while the penalty kernels' documentation calls it a unit normal | A2 = 2I and face normal (1, 0, 0): the stored normal has length 1/2 | normalise A2⁻ᵀ n | not executed | Collision.WorldNormalNotUnit | Collision.UnitWorldNormalIsUnit |
| simulator.py:187 | the sparsity pattern holds one group of four per body pair with contacts, but the values hold four blocks per contact, and the two are zipped index by index | two contacts between bodies 0 and 1: the second contact's blocks are dropped; with a further (1, 0) contact, blocks are placed at the wrong body pair | one group of four labels per contact | not executed | Simulator.ZipMislabels | Simulator.ContactTripletsForm |
| simulator.py:153-162 | the energy callback returns the elastic and contact energies only, without the inertial term and without the h² factor that the gradient and Hessian callbacks use | one contact-free body displaced from its prediction by a translation d: the energy callback is constant along d while the gradient's slope along d is dᵀ M d > 0 | return the step objective ½(q − p)ᵀ M (q − p) + h² (E_elastic + E_contact) | not executed | StepSystem.EnergyFuncMissesInertia | StepSystem.StepExpansion |
| assignment/d2energy_dq2.py:25-26 | the documentation calls the elastic Hessian positive definite | at F = I the antisymmetric direction with entries (0, 1) = 1 and (1, 0) = −1 has zero Hessian form, and rows 3, 7 and 11 are zero at every pose | positive semidefinite at rest; the system matrix gets definiteness from the mass blocks | not executed | Elastic.RestHessianNotDefinite | Elastic.RestHessianSemidefinite |
