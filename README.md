# Probabilistic reasoning core of `aima_probability`

This project is a Dafny model of the exact-inference core of
`aima_probability/probability.py`, the probability chapter of the AIMA
Python code. The modelled parts are:

- **Distributions** (`distributions.dfy`). Covers `ProbDist`, a distribution
  over the values of one variable that can be normalised, `JointProbDist`, a
  table over tuples of values that also remembers the values seen for each
  variable, and `event_values`.
- **Enumeration over a joint table** (`joint_enumeration.dfy`). Covers
  `enumerate_joint_ask` and `enumerate_joint`.
- **Bayesian networks** (`network.dfy`). Covers:
  - `BayesNode`, with its domain (`determine_domain`) and its conditional
    probability `p`;
  - the boolean shorthand of `BoolBayesNode._init_boolean_cpt`;
  - `BayesNet` with `add`, `variable_node` and `variable_values`.
- **Events** (`events.dfy`). Covers `all_events` (every extension of the
  evidence by values of some variables) and `consistent_with`.
- **Exact inference by enumeration** (`enumeration.dfy`). Covers
  `enumeration_ask` and `enumerate_all`.
- **Factors** (`factors.dfy`). Covers `Factor` with `p`,
  `pointwise_product`, `sum_out` and `normalize`, plus `make_factor` and the
  module-level `pointwise_product`.
- **Variable elimination** (`elimination.dfy`). Covers `elimination_ask`,
  `is_hidden` and the module-level `sum_out`.
- **Grid map** (`grid_map.dfy`). Covers the constructor of `MCLmap` and its
  sensor `ray_cast`.

`common.dfy` holds the shared vocabulary. Python exceptions become a
`Result` (or an `Outcome` for a statement) that names the exception class.
A raised `Exception("No such variable")` is named `NoSuchVariable`.

The Python code has state in two places: `ProbDist` and `JointProbDist`
objects, and the `BayesNet`/`BayesNode` objects. These are classes whose
methods change their fields. `ProbDist` keeps the invariant that its value
list holds each key of its table once. `BayesNet` keeps the invariants that
its variable list matches its nodes, each variable is named once, parents
precede children, and each node's `children` list holds the later nodes
that list it as a parent, once per mention.

Each loop of the source is a method proved against a function that
specifies it:

- the loops that fill a distribution (`Fill`);
- the partition loop of `sum_out` (`SumOut`);
- the reversed loop of `elimination_ask` (`EliminationAsk`);
- the turning and walking loops of `ray_cast` (`Turned`, `Walk`).

The recursive functions are modelled as functions:

- `enumerate_all` and `enumerate_joint`, proved equal to sums of table
  entries over all completions of the evidence;
- `all_events`, proved to list exactly the extensions of the evidence;
- the factor operations, each proved to compute the product, the sum or the
  lookup it names.

Values in a network are integers. Python's `False` and `True` are the
integers 0 and 1 (they compare and hash equal to them), so a boolean table
stores them as 0 and 1. Probabilities are exact reals.

## Model

| member | source | states |
|---|---|---|
| Distributions.ProbDist.constructor | aima_probability/probability.py:37-42 | A new distribution has the given variable name, no values and an empty table |
| Distributions.ProbDist.Get | aima_probability/probability.py:48-53 | `P[v]` is the stored probability of a listed value and 0 for any other value (the KeyError is caught) |
| Distributions.ProbDist.Set | aima_probability/probability.py:55-59 | Setting `P[v] = p` updates the table at `v` only. `v` is appended to the values only if it is new. Afterwards `P[v]` reads `p` and the value list still lists each key once |
| Distributions.ProbDist.Normalize | aima_probability/probability.py:61-69 | Fails with ZeroDivisionError exactly when the total is 0 over a non-empty table, and then changes nothing. Otherwise the table becomes the normalised table, with the values unchanged, and a non-empty table then totals 1 |
| Distributions.NormalizedSumsToOne | aima_probability/probability.py:61-69 | Dividing every entry by a non-zero total makes the entries sum to 1 |
| Distributions.FirstKeys | aima_probability/probability.py:44 | Iterating a dict built from pairs visits each key once, and exactly the keys of the pairs |
| Distributions.ProbDist.FromFreqs | aima_probability/probability.py:37-46 | `ProbDist(name, freqs)` lists the keys of `freqs` in first-insertion order and holds the normalised frequencies. It raises ZeroDivisionError exactly when the frequencies are non-empty and sum to 0 |
| Distributions.FreqsExample | aima_probability/probability.py:32-34 | The docstring example: frequencies 125, 375 and 500 become 0.125, 0.375 and 0.5 |
| Distributions.TabulatedOk | aima_probability/probability.py:149-150 | Filling a distribution value by value succeeds exactly when every value's computation succeeds, and then maps each value to its result |
| Distributions.TabulatedErr | aima_probability/probability.py:149-150 | A failed fill raises the error of the first value whose computation fails |
| Distributions.Fill | aima_probability/probability.py:330-331 | The loop `for xi in xs: Q[xi] = h(xi)` on an empty distribution fails exactly as the fill specification does. On success the values are the distinct elements of `xs` in order and the table is the fill specification |
| Distributions.EventValues | aima_probability/probability.py:122-132 | A tuple of the right length is its own key. A dict gives the tuple of its values for the variables, in order. A dict missing a variable raises KeyError. A tuple of the wrong length raises TypeError, except that with no variables every tuple gives the empty key |
| Distributions.DictAndTupleAgree | aima_probability/probability.py:122-132 | A dict and a tuple that bind the variables to the same values give the same key |
| Distributions.AddSeenValues | aima_probability/probability.py:110-112 | Recording an entry keeps each variable's seen values free of repeats. It never drops one, and it adds exactly the values the entry gives that variable |
| Distributions.NoteAll | aima_probability/probability.py:110-112 | The recording loop computes the recording specification |
| Distributions.StoreKeepsTableValid | aima_probability/probability.py:104-112 | Storing a full-length key keeps the joint table's invariant: every stored key has one value per variable, each of those values is among the variable's seen values, and a name that is not a variable has no seen values |
| Distributions.TableGet | aima_probability/probability.py:99-102 | `P[values]` is the stored entry for the key, or 0 when the key is missing. An unreadable key raises the error of `event_values` |
| Distributions.JointProbDist.constructor | aima_probability/probability.py:94-97 | A new joint table has the given variables, no entries and no seen values |
| Distributions.JointProbDist.Values | aima_probability/probability.py:114-116 | The seen values of a variable are repeat-free and include that variable's component of every stored key. A name that is not one of the variables has none |
| Distributions.JointProbDist.Get | aima_probability/probability.py:99-102 | Reads what the table lookup `TableGet` gives: the stored mass of the key `event_values` forms, 0 for a key never set, or the key's error. Reading fails exactly when the key cannot be formed, and a non-zero reading comes from a stored key |
| Distributions.JointProbDist.Set | aima_probability/probability.py:104-112 | Fails exactly when the key cannot be formed, and then changes nothing. Otherwise it stores `p` at the key, records the key's values as seen, and a later read gives `p` |
| Distributions.AddSeenElsewhere | aima_probability/probability.py:110-112 | Recording a key's values leaves the seen values of any name outside the key's variables unchanged |
| Distributions.NoVariablesExample | aima_probability/probability.py:127-130 | On a table over no variables, `P[(1,)] = 0.5` stores 0.5 under the empty key, so `P[()]` and `P[7, 7]` both read 0.5 |
| Distributions.JointExample | aima_probability/probability.py:87-92 | The docstring example: `P[1, 1] = 0.25` reads back 0.25, and `P[dict(X=0, Y=1)] = 0.5` reads back 0.5 |
| JointEnumeration.EnumerateJoint | aima_probability/probability.py:154-160 | `enumerate_joint` fails only with KeyError |
| JointEnumeration.MassWhereOne | aima_probability/probability.py:157-158 | Once every variable is bound, `P[e]` is the one matching entry, or 0 |
| JointEnumeration.EnumerateJointIsMass | aima_probability/probability.py:154-160 | On a valid table, when `vars` are the remaining unbound variables, `enumerate_joint` returns the total mass of the stored entries that agree with `e` |
| JointEnumeration.SumJointIsMass | aima_probability/probability.py:159-160 | The sum over the seen values of the first remaining variable equals the mass of the entries that agree with `e` and take one of those values |
| JointEnumeration.Hidden | aima_probability/probability.py:148 | The hidden variables are exactly the table's variables other than the query and the evidence. They are repeat-free when the table's variables are |
| JointEnumeration.JointColumn | aima_probability/probability.py:149-150 | Every query on a valid table fails only with KeyError. A well-posed query yields, for each value of X, the mass of the entries consistent with the evidence and that value |
| JointEnumeration.EnumerateJointAsk | aima_probability/probability.py:138-151 | X in the evidence raises AssertionError. For a well-posed query the answer is the normalised consistent masses over the seen values of X. It fails with ZeroDivisionError exactly when those masses sum to 0. An X that is neither evidence nor a table variable has no seen values and gives the empty distribution |
| JointEnumeration.AskMasses | aima_probability/probability.py:138-144 | On the docstring's table, the masses consistent with `Y = 1` are 0.5, 0.125 and 0.125 for `X` = 0, 1 and 2 |
| JointEnumeration.AskNormalized | aima_probability/probability.py:141-144 | Normalising those masses gives 2/3, 1/6 and 1/6 |
| JointEnumeration.AskSeen | aima_probability/probability.py:110-112 | Setting the docstring's four keys in order records the values 0, 1, 2 for `X` and 0, 1 for `Y` |
| JointEnumeration.AskTable | aima_probability/probability.py:140-141 | The docstring's table holds its four keys in insertion order, with their masses and seen values |
| JointEnumeration.JointAskExample | aima_probability/probability.py:139-144 | The docstring example: `X` given `Y = 1` has the values 0, 1 and 2 with probabilities 2/3, 1/6 and 1/6 (shown rounded as 0.667, 0.167, 0.167) |
| Network.DetermineDomain | aima_probability/probability.py:229-236 | The domain is the common key set of all rows. Rows with differing keys raise AssertionError, and an empty table raises AttributeError |
| Network.SortedDomain | aima_probability/probability.py:227 | The node's domain lists exactly the domain set, strictly ascending |
| Network.InitBooleanCpt | aima_probability/probability.py:272-291 | The shorthand conversion fails only with AssertionError |
| Network.BooleanCptCanonical | aima_probability/probability.py:284-291 | Every accepted table has keys that are tuples of `len(parents)` booleans. Each row is `{True: p, False: 1 - p}` for some `p` in [0, 1] |
| Network.NumberShorthand | aima_probability/probability.py:275-276 | A bare number is accepted exactly for a parentless node with `p` in [0, 1]. It becomes the single row `{(): {True: p, False: 1 - p}}` |
| Network.BoolKeyedShorthand | aima_probability/probability.py:279-280 | A dict keyed by booleans is accepted exactly when there is one parent, every key is a boolean and every probability is in [0, 1] |
| Network.BoolKeyedShorthandRows | aima_probability/probability.py:280 | An accepted bool-keyed dict maps each 1-tuple `(v,)` to `{True: p, False: 1 - p}` for the `p` of `v` |
| Network.TupleKeyedShorthand | aima_probability/probability.py:281-289 | A dict keyed by tuples is accepted exactly when every key is a tuple of `len(parents)` booleans and every probability is in [0, 1]. Each key then maps to `{True: p, False: 1 - p}` |
| Network.BooleanDomain | aima_probability/probability.py:227-236 | A non-empty boolean table has the domain {False, True} |
| Network.BooleanDomainSorted | aima_probability/probability.py:227 | A boolean node's sorted domain is [False, True] |
| Network.BoolKeyedExample | aima_probability/probability.py:262 | The docstring example `{T: 0.2, F: 0.7}` with one parent is accepted |
| Network.TupleKeyedExample | aima_probability/probability.py:263-264 | The docstring example with two parents and four tuple keys is accepted |
| Network.CptP | aima_probability/probability.py:238-246 | `p(value, event)` is the table entry for `value` in the row of the parents' values. A missing parent, row or value raises KeyError |
| Network.NodePExample | aima_probability/probability.py:243-245 | The docstring example: P(X=False \| Burglary=False) is 0.375 |
| Network.BayesNode.constructor | aima_probability/probability.py:219-227 | A node keeps its variable, parents and table. It has no children, and its domain is the sorted domain of its table |
| Network.NodeCpt | aima_probability/probability.py:208-212 | A general net keeps an explicit table. A boolean net expands its shorthand |
| Network.CreateNode | aima_probability/probability.py:177-178 | A node is created exactly when its table converts and has a domain. It is new, childless and holds the converted table |
| Network.NodeOf | aima_probability/probability.py:191-198 | Lookup succeeds exactly for a variable of the net and returns a node of that variable. Otherwise it raises "No such variable" |
| Network.NodeOfAt | aima_probability/probability.py:195-197 | With distinct variable names, the lookup finds the node at that variable's position |
| Network.DomainOf | aima_probability/probability.py:200-202 | `variable_values` gives the domain of the variable's node, and fails exactly when the lookup does |
| Network.WellFormedSnoc | aima_probability/probability.py:184-187 | Appending a node with a new variable whose parents are all present keeps the variables distinct and parents-first |
| Network.ChildrenAfterAdd | aima_probability/probability.py:188-189 | After the parent loop, every node's children are the later nodes that list it as a parent, once per mention, and the new node has none |
| Network.BayesNet.constructor | aima_probability/probability.py:169-175 | A new net has no nodes and no variables and satisfies the net invariant |
| Network.BayesNet.VariableNode | aima_probability/probability.py:191-198 | The loop returns the first node of the variable, as the lookup specification does |
| Network.BayesNet.VariableValues | aima_probability/probability.py:200-202 | The domain of the named variable, or the lookup's error |
| Network.BayesNet.AppendChild | aima_probability/probability.py:189 | The parent's children gain the child at the end, and no other node changes |
| Network.BayesNet.AddChildren | aima_probability/probability.py:188-189 | Each mention of a parent appends the child to that parent's children, in order |
| Network.BayesNet.Append | aima_probability/probability.py:186-187 | The node and its variable are appended and the net invariant is kept |
| Network.BayesNet.Add | aima_probability/probability.py:180-189 | `add` succeeds exactly when the node can be created, its variable is new and its parents are present. It then appends the node and keeps the invariant. On failure nothing changes |
| Events.ConsistentIffJointlyExtended | aima_probability/probability.py:507-509 | An event is consistent with evidence exactly when one assignment extends both |
| Events.Domains | aima_probability/probability.py:448 | The list of domains exists exactly when every variable is in the net, and it holds each variable's domain in order |
| Events.ProductMembers | aima_probability/probability.py:450 | The product of domains holds exactly the tuples that take each component from the matching domain |
| Events.ProductSize | aima_probability/probability.py:450 | The product has as many tuples as the product of the domain sizes |
| Events.ProductNoDup | aima_probability/probability.py:450 | The product of repeat-free domains is repeat-free |
| Events.AllEvents | aima_probability/probability.py:446-453 | The events exist exactly when every variable is in the net. Otherwise the error is "No such variable" |
| Events.AllEventsSound | aima_probability/probability.py:446-453 | Every yielded event extends the evidence with values from each unbound variable's domain |
| Events.AllEventsComplete | aima_probability/probability.py:446-453 | Every extension of the evidence by domain values is yielded, provided no domain is empty |
| Events.AllEventsConsistent | aima_probability/probability.py:446-453 | Every yielded event is consistent with the evidence |
| Enumeration.EnumerateAll | aima_probability/probability.py:335-350 | `enumerate_all` fails only with "No such variable" or KeyError |
| Enumeration.ExtensionsExtend | aima_probability/probability.py:344-349 | Every completion of the evidence that the recursion visits extends the evidence |
| Enumeration.EnumerateAllIsMarginal | aima_probability/probability.py:335-350 | When it succeeds, `enumerate_all` equals the sum over all completions of the evidence of the product of the variables' conditional probabilities |
| Enumeration.SumHiddenIsMarginal | aima_probability/probability.py:347-350 | The sum over a hidden variable's domain equals the weighted sum over the completions that bind it |
| Enumeration.ColumnIsPosterior | aima_probability/probability.py:330-331 | Filling the query's distribution fails only with "No such variable" or KeyError. Otherwise it gives each value its marginal |
| Enumeration.AskColumn | aima_probability/probability.py:328-331 | X in the evidence raises AssertionError, and an unknown X raises "No such variable". Otherwise each value of X's domain gets `enumerate_all` in order |
| Enumeration.EnumerationAsk | aima_probability/probability.py:322-332 | The answer is the normalised marginals of X's values. It fails as the column does, or with ZeroDivisionError exactly when the marginals sum to 0 |
| Factors.FactorP | aima_probability/probability.py:441-443 | `f.p(e)` is the table entry of the event's values. A missing variable or entry raises KeyError |
| Factors.RowsOk | aima_probability/probability.py:384-387 | Building the table succeeds exactly when every event's entry does. The stored rows are the events' keys with their entries |
| Factors.BuildFactorOk | aima_probability/probability.py:384-388 | A factor is built exactly when the variables are in the net and every event's entry succeeds. Its failure is one of those errors |
| Factors.BuildFactorAt | aima_probability/probability.py:384-388 | The built factor looks up, for each event it was built from, exactly that event's entry |
| Factors.Unbound | aima_probability/probability.py:383 | The factor's variables are exactly the variable and its parents that are not in the evidence |
| Factors.MakeFactorSpec | aima_probability/probability.py:378-388 | `make_factor` fails only with "No such variable" or KeyError. Its variables are the unbound ones among the variable and its parents. For every event it tabulates, its value is the node's conditional probability |
| Factors.UnionVars | aima_probability/probability.py:416 | The product's variables are exactly the union of both factors' variables, without repeats |
| Factors.PointwiseProductSpec | aima_probability/probability.py:414-421 | The product fails only with "No such variable" or KeyError. Its variables are the union, and for each event its value is the product of the two factors' values |
| Factors.ProductCommutes | aima_probability/probability.py:414-421 | The product is commutative. `f·g` and `g·f` succeed together, have the same variables and agree on every event over those variables |
| Events.AllEventsReordered | aima_probability/probability.py:446-453 | Listing the same net variables in another order yields the same events. This is why the hash order of `list(set(...))` does not change a product's entries |
| Factors.BuildTabulated | aima_probability/probability.py:414-421 | A table built over repeat-free variables without evidence has one row per tuple of the domains' product, in `itertools.product` order, keyed by that tuple |
| Factors.ProductTabulated | aima_probability/probability.py:414-421 | A product is such a table: one row per tuple of its variables' domains |
| Factors.ProductSum | aima_probability/probability.py:414-421 | Take two such tables over disjoint variables whose domains have no repeated value. Their product succeeds, and its entries sum to the product of the two tables' sums |
| Factors.SumOverIsSum | aima_probability/probability.py:427-429 | The sum over a domain succeeds exactly when every lookup does, and then equals the sum of the lookups. A failure is one lookup's error |
| Factors.FactorSumOutSpec | aima_probability/probability.py:423-432 | Summing out fails only with "No such variable" or KeyError. The result drops the variable, and for each event its value is the sum of the factor's values over the variable's domain |
| Factors.ProductAllSpec | aima_probability/probability.py:391-392 | `reduce` of no factors raises TypeError, and only then. Other failures come from the products, and the result's variables are all the factors' variables |
| Factors.UnpackSpec | aima_probability/probability.py:438 | Unpacking `((k,), v)` succeeds exactly when every key is a 1-tuple, and otherwise raises ValueError |
| Factors.ItemsSpec | aima_probability/probability.py:438 | The unpacked dict has an item for each key `(k,)`, with the table's value, and nothing else. It is empty exactly when the table is |
| Factors.FactorNormalize | aima_probability/probability.py:434-439 | `normalize` asserts a single variable and unpacks 1-tuples (ValueError otherwise). It returns the distribution over that variable built from the unpacked frequencies |
| Elimination.IsHidden | aima_probability/probability.py:370-375 | A variable is hidden exactly when it is neither queried (one variable or a list) nor in the evidence |
| Elimination.Partition | aima_probability/probability.py:397-402 | The loop splits the factors without loss into those that do not mention the variable and those that do |
| Elimination.PartitionVars | aima_probability/probability.py:397-402 | The variables of all factors are those of the two parts, and the untouched part does not mention the variable |
| Elimination.EliminatedSpec | aima_probability/probability.py:395-404 | `sum_out` raises TypeError exactly when no factor mentions the variable. Otherwise the remaining factors mention every earlier variable except the one summed out |
| Elimination.SumOut | aima_probability/probability.py:395-404 | The partition loop followed by the product and the sum computes the specification of `sum_out` |
| Elimination.MadeFactorVars | aima_probability/probability.py:382-383 | In a parents-first net, the factor of a variable mentions only it and earlier variables, never the evidence, and it mentions the variable itself when the variable is unbound |
| Elimination.StepKept | aima_probability/probability.py:363-366 | Keeping the factor of the query variable or of an evidence variable preserves the loop invariant |
| Elimination.StepHidden | aima_probability/probability.py:363-366 | Summing out a hidden variable preserves the loop invariant |
| Elimination.Finished | aima_probability/probability.py:367 | After the loop, a one-variable product is over the query variable |
| Elimination.EliminationAsk | aima_probability/probability.py:356-367 | X in the evidence raises AssertionError, and an unknown X is an error. A non-empty net never reaches `reduce` of nothing. An answer is a distribution over X, and a non-empty answer totals 1 |
| GridMap.CellsSpec | aima_probability/probability.py:740-745 | The free-cell comprehension lists exactly the in-range cells holding no obstacle, in row-major order |
| GridMap.NewMap | aima_probability/probability.py:735-745 | Building a map raises IndexError exactly for an empty grid or a row shorter than the first. Otherwise the map satisfies its invariant |
| GridMap.NewMapEmpty | aima_probability/probability.py:740-745 | A built map's free cells are exactly the grid's free cells, row by row |
| GridMap.Base | aima_probability/probability.py:763-766 | Whatever the sensor number, its direction facing north is never the zero step |
| GridMap.Rotate | aima_probability/probability.py:769 | A quarter turn is the zero step only when its input is |
| GridMap.Direction | aima_probability/probability.py:763-769 | The sensor's direction after turning is never the zero step |
| GridMap.DirectionCompass | aima_probability/probability.py:759-769 | For sensors 0 to 3, turning by the orientation gives the compass direction of sensor `(s + orient) mod 4` |
| GridMap.RotatedPeriod | aima_probability/probability.py:768-769 | Four quarter turns return the direction to itself |
| GridMap.Turned | aima_probability/probability.py:768-769 | The turning loop computes the sensor's direction |
| GridMap.CastSpec | aima_probability/probability.py:771-777 | The distance counts the open cells before the first cell that is outside the bounds or an obstacle. The walk fails (IndexError) only on a cell inside the bounds that its row does not reach |
| GridMap.CastWithinColumns | aima_probability/probability.py:771-775 | With a column bound no wider than the map, the walk never fails |
| GridMap.Walk | aima_probability/probability.py:770-778 | The counting loop computes the walk's distance or its IndexError |
| GridMap.RayCast | aima_probability/probability.py:755-778 | `ray_cast` as written: the walk along the sensor's direction with the column test bounded by the number of rows |
| GridMap.RayCastCorrected | aima_probability/probability.py:755-778 | `ray_cast` with the column test bounded by the number of columns: it always returns a distance |
| GridMap.WideGridCounterexample | aima_probability/probability.py:773 | On a 1×3 free grid, looking east from (0, 0) gives 1 as written and 3 with the column bound |
| GridMap.TallGridCounterexample | aima_probability/probability.py:773 | On a 2×1 free grid, looking east from (0, 0) raises IndexError as written and gives 1 with the column bound |

## Left out

- Sampling (`BoolBayesNode.sample`, `prior_sample`, `rejection_sampling`, `likelihood_weighting`, `weighted_sample`, `gibbs_ask`, `markov_blanket_sample`), hidden Markov models, particle filtering, Monte Carlo localisation and `MCLmap.sample`: these draw random numbers and are outside this model.
- `ProbDist.show_approx` and the `__repr__` methods: these only format text.
- `isclose(total, 1.0)` in `normalize` is modelled as exact equality on reals, because probabilities are exact reals here, not floats.
- Parent lists given as a space-separated string: the model takes the list already split (`str.split` is not modelled).
- A node specification is passed to `add` as a variable, a parent list and a table. `BayesNet(node_specs)` is the empty net followed by one `Add` per specification.
- The `values` lists of `ProbDist` and the keys of Python dicts are modelled as repeat-free sequences in insertion order. A dict given as a literal is a sequence of pairs in which a later key overrides an earlier one.
- `Factor.pointwise_product` orders its variables as `list(set(...))` does, which depends on hashing. The model lists the first factor's variables, then the second's new ones. Only membership, not order, is stated about it.
- Tuples in `JointProbDist` keys are modelled as sequences, and a "tuple or dict" argument as a two-case datatype (`EventSpec`).
- `MCLmap` cells are booleans (`true` is an obstacle), standing for the truthiness of the grid's entries. `vector_add` (from `utils`, which is not part of this model) is taken as component-wise addition. Negative Python indices are not reachable, because the walk stops at the lower bounds first.
- Elimination.EliminationAsk: does not state that its answer equals the normalised answer of `enumeration_ask` on the same query (the numeric agreement of the two algorithms), nor the burglary doctest's figures. It states the errors, the variable of the answer and that a non-empty answer totals 1. Neither does it state that the final product has exactly one variable when a node lists a parent twice.
- Enumeration.EnumerationAsk: ties the answer to the marginals for any net, but does not prove that these marginals are the posterior of a well-formed net's joint distribution (a probabilistic reading that needs sums over all events of the net). Nor does it prove the burglary docstring figures 0.716 and 0.284 (probability.py:325-327): the burglary net is not built in the model.
- Factors.PointwiseProductSpec: associativity of the product is not stated. Success itself is not associative. Suppose `f` lacks an entry for some tuple of its domains and `h` has a variable whose domain is empty. Then `(f·g)·h` fails with KeyError when it builds `f·g`, while `f·(g·h)` looks nothing up and succeeds with an empty table. Commutativity (`Factors.ProductCommutes`) and the sum law for disjoint tables (`Factors.ProductSum`) are stated.
- Network.InitBooleanCpt: keeps a table keyed by `True`/`False` apart from one keyed by `1`/`0`, also inside tuples. Python treats these keys as equal, so a literal such as `{True: 0.2, 1: 0.3}` becomes `{True: 0.3}` there, while the model rejects it with AssertionError.
- Network.SortedDomain: domain values are integers (a boolean is 0 or 1), which always compare, so the TypeError `sorted` raises on a domain mixing incomparable values (say a string and a number) is not modelled.

## Findings

| source | as written | input that shows it | evidently intended | confidence | as-written member | corrected member |
|---|---|---|---|---|---|---|
| aima_probability/probability.py:773 | the column test is `0 <= pos[1] < self.nrows` | a free 1×3 grid, sensor 1 (east), kinematic state (0, 0, 0): the walk stops after 1 step | the column test uses `self.ncols`, giving 3 | not executed | GridMap.WideGridCounterexample | GridMap.RayCastCorrected |
| aima_probability/probability.py:773 | the column test is `0 <= pos[1] < self.nrows` | a free 2×1 grid, sensor 1 (east), kinematic state (0, 0, 0): the walk reads `m[0][1]`, an IndexError | the column test uses `self.ncols`, giving 1 | not executed | GridMap.TallGridCounterexample | GridMap.RayCastCorrected |
