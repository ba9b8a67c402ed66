# Portfolio page script: the verified core

This project models, in Dafny, the parts of the portfolio page's script that
have exact integer-valued logic, and proves what that logic guarantees.

- **Typing effect** (`typing.dfy`, module `Typing`). The page cycles through
  five texts. It types each one out a code unit per tick, holds it, deletes
  it a code unit per tick, and moves on to the next, wrapping after the last.
  - `TypingEffect` is a class with the script's three module-level variables
    `textIndex`, `charIndex` and `isDeleting`.
  - Its `Tick` method returns the text it displays and the delay before the
    next tick.
  - Texts are sequences of UTF-16 code units, because JavaScript's
    `substring` and `.length` count code units. The brain emoji that ends the
    fifth text is therefore two units.
  - The state machine is stated for any list of non-empty texts. The page's
    own list is the constant `TypingTexts`.
- **Network topology** (`topology.dfy`, module `Topology`). This is the node
  and edge construction of the neural-network illustration.
  - Nodes are pushed layer by layer and tagged with their layer.
  - A running `nodeIndex` then joins every node of each layer to every node
    of the next.
  - Only layer tags and `(from, to)` index pairs are kept. The layer sizes
    are any `seq<nat>`; the page uses `[4, 6, 6, 4]`.
- **Scroll reveal** (`scroll_reveal.dfy`, module `ScrollReveal`). This is the
  one-shot intersection observer.
  - The elements with class `stats-section` or `hero-card` are observed.
  - The first intersecting entry for an observed element starts its
    animations and unobserves it.
- **Navbar** (`navbar.dfy`, module `NavScroll`). The bar's background
  depends on whether the page is scrolled past 50 pixels.

Each tick adds or removes one UTF-16 code unit, so the fifth text takes 23
ticks to type, not 22. One of those ticks shows the emoji's high surrogate
alone (`Typing.HalfEmojiShown`).

## Model

| member | source | states |
|---|---|---|
| Typing.TextsAreUtf16 | script.js:138-144 | the five texts are exactly the UTF-16 encodings of the script's five string literals |
| Typing.EmojiText | script.js:143 | the last text is 23 code units long and ends in the surrogate pair D83E DDE0 of the brain emoji |
| Typing.TextsNonEmpty | script.js:138-144 | there are five texts and none is empty |
| Typing.Substring | script.js:154 | JavaScript `substring(start, end)`: the slice `s[start..end]` when the bounds are in range, empty when both are at or below 0, never longer than `s` |
| Typing.Step | script.js:149-170 | typing grows the shown prefix by one and deleting shrinks it by one. At full length the delay is 2000 and the effect turns to deleting. At 0 remaining the delay is 500, the text index advances modulo the number of texts, and the effect turns to typing. Otherwise the delay is 100 when typing and 50 when deleting. Every tick keeps the state valid: `textIndex` in range, `charIndex` within the current text |
| Typing.Run | script.js:145-172 | any number of ticks from a valid state leads to a valid state |
| Typing.TypingPhase | script.js:156-165 | typing from `c` units, `k` ticks later `c + k` units are reached, and the effect is deleting exactly when the text is full |
| Typing.DeletingPhase | script.js:153-169 | deleting from `c` units, `k` ticks later `c - k` remain; once none remain, the effect is at the start of the next text |
| Typing.FullCycle | script.js:149-170 | from `(i, 0, typing)`, the tick that reaches the full text shows all of it and waits 2000 ms. After `len` ticks the effect is deleting the full text. After `2 * len` ticks it is at `((i + 1) % count, 0, typing)` |
| Typing.HalfEmojiShown | script.js:143-157 | typing the last text shows the emoji's high surrogate alone for one 100 ms tick before the tick that completes it and holds for 2000 ms |
| Typing.CycleSplit | script.js:163-170 | cycling from text `i` is a full cycle of `i` followed by cycling from the next text |
| Typing.CycleFrom | script.js:163-170 | from the start of text `i`, twice the total length of texts `i` and above is the number of ticks that leads back to the initial state |
| Typing.Period | script.js:138-172 | the page's effect returns to its initial state after 288 ticks, twice its 144 code units |
| Typing.TypingEffect.constructor | script.js:138-147 | the effect starts at text 0, nothing typed, typing, on the page's texts |
| Typing.TypingEffect.Tick | script.js:149-172 | one callback: the new state, the shown text and the delay are those of `Step`. The valid-state invariant is kept, and the shown text is the prefix of the new `charIndex` length |
| Topology.StartMonotone | script.js:68-81 | layer start indices never decrease |
| Topology.LayerUnique | script.js:54-65 | a node index lies in at most one layer's range |
| Topology.NodesTagged | script.js:54-65 | there are `Sum(layers)` nodes, and the node at index `k` carries the layer whose index range `[Start(l), Start(l + 1))` holds `k` |
| Topology.NodeLayerIff | script.js:54-65 | a node's layer tag is `l` if and only if its index lies in layer `l`'s range |
| Topology.EmptyLayerHasNoNodes | script.js:57-64 | a layer of size zero contributes no node |
| Topology.BuildNodes | script.js:54-65 | the node loop yields exactly `Nodes(layers)`: `Sum(layers)` nodes, each tagged with the layer holding its index |
| Topology.RowMembers | script.js:76-78 | the inner loop for node `i` adds exactly the edges from `i` to the next layer's range |
| Topology.RowOrdered | script.js:76-78 | those edges are in increasing order |
| Topology.BlockLength | script.js:75-79 | joining two ranges yields one edge per pair of nodes |
| Topology.BlockMembers | script.js:75-79 | joining two ranges yields exactly the pairs from the first range into the second |
| Topology.BlockOrdered | script.js:75-79 | those pairs come in lexicographic `(from, to)` order |
| Topology.OrderedAppend | script.js:69-81 | concatenating ordered edge lists whose elements are ordered between the lists gives an ordered list |
| Topology.ConnectionsUpToCount | script.js:69-81 | the edges among the first `m` layers number the sum of products of adjacent layer sizes |
| Topology.ConnectionsUpToMembers | script.js:69-81 | the edges among the first `m` layers are exactly the pairs in adjacent layers among them |
| Topology.ConnectionsUpToOrdered | script.js:69-81 | the edges among the first `m` layers are ordered |
| Topology.ConnectionsShape | script.js:68-81 | there are `sum layers[l] * layers[l + 1]` connections, in strictly increasing `(from, to)` order (so there are no duplicates). A pair is among them if and only if it joins a node of some layer `l` to a node of layer `l + 1`, so there are no intra-layer or skip edges and none is missing |
| Topology.ConnectionsMatchNodes | script.js:48-81 | every connection joins two existing nodes whose layer tags differ by one, and every two nodes whose tags differ by one are connected |
| Topology.JoinLayers | script.js:75-79 | the nested loops for one pair of layers append exactly the block of edges between their ranges |
| Topology.BuildConnections | script.js:68-81 | the connection loop yields exactly `Connections(layers)`, with the count, order and membership of `ConnectionsShape` |
| Topology.PageStarts | script.js:50 | the page's layers start at nodes 0, 4, 10 and 16 and hold 20 nodes |
| Topology.PageTopology | script.js:50-81 | for `[4, 6, 6, 4]`: 20 nodes and 84 connections |
| ScrollReveal.Animations | script.js:15-21 | counters start if and only if the element has class `stats-section`, skill bars and hero stats if and only if it has `hero-card`. Nothing starts for an element with neither class, and no animation is listed twice |
| ScrollReveal.HandleEntryValid | script.js:14-23 | handling one entry keeps the one-shot invariant: no element has fired twice, and no element that has fired is observed |
| ScrollReveal.HandleEntriesMonotone | script.js:13-24 | a batch only removes from the observed set and only appends to the log. Every element it fires was observed before the batch and is not observed after it |
| ScrollReveal.HandleEntriesValid | script.js:12-24 | however many entries arrive, no element fires twice |
| ScrollReveal.NonIntersectingIgnored | script.js:14 | a batch of non-intersecting entries changes nothing |
| ScrollReveal.IntersectingFires | script.js:14-22 | an observed element with an intersecting entry in the batch has a firing logged during the batch, with its own animations, and is unobserved after it |
| ScrollReveal.LastEntryFires | script.js:14-22 | an intersecting last entry whose target was observed before the batch leaves that target unobserved, with a firing for it logged during the batch with its animations |
| ScrollReveal.StaysObserved | script.js:14-22 | an observed element for which no entry of the batch intersects stays observed |
| ScrollReveal.UnobservedIff | script.js:14-22 | an observed element is unobserved by a batch if and only if some entry of the batch for it intersects |
| ScrollReveal.FiresOnlyOnIntersecting | script.js:14-22 | every firing a batch adds was caused by an intersecting entry of the batch for the fired element |
| ScrollReveal.FiredEarlier | script.js:22 | an element unobserved during a batch has a firing logged during that batch, with its own animations |
| ScrollReveal.HandleEntriesAsWritten | script.js:13-23 | the callback as the script writes it only shrinks the observed set and only extends the log, and adds as many firings as the batch has intersecting entries |
| ScrollReveal.AsWrittenEffect | script.js:13-23 | the callback as written leaves exactly the previously observed elements that have no intersecting entry in the batch observed, and appends to the log one firing per intersecting entry, in order, for that entry's target with its animations, whatever was observed before |
| ScrollReveal.IntersectingTargetsSnoc | script.js:13-22 | the targets unobserved by a batch are those of all but its last entry, plus the last entry's target when it intersects |
| ScrollReveal.AsWrittenMatchesGuarded | script.js:13-23 | when every entry is for an observed target and no two intersecting entries share a target, the callback as written gives the same state as the guarded handling |
| ScrollReveal.AsWrittenValid | script.js:13-23 | under that delivery, the callback as written keeps the one-shot invariant: no element fires twice |
| ScrollReveal.RepeatedEntryFiresTwice | script.js:13-23 | the callback as written fires an element twice for a batch holding two intersecting entries for it, breaking the one-shot invariant; the guarded handling fires it once |
| ScrollReveal.RevealObserver.constructor | script.js:27 | the observed set is exactly the page's elements with class `stats-section` or `hero-card`; nothing has fired |
| ScrollReveal.RevealObserver.Callback | script.js:12-25 | one callback yields the state the corrected `HandleEntries` gives (see "Left out"), keeps the one-shot invariant, and only shrinks the observed set and extends the log |
| NavScroll.NavBackground | script.js:264-268 | the background is `rgba(7, 7, 16, 0.95)` if and only if `scrollY > 50`, and `rgba(7, 7, 16, 0.8)` if and only if `scrollY <= 50` |
| NavScroll.BackgroundMonotone | script.js:264 | scrolling further down never turns the bar back to the lighter colour |
| NavScroll.BackgroundBoundary | script.js:264 | offsets 49 and 50 give the lighter colour and 51 gives the opaque one |

## Left out

- Browser calls are not modelled: the DOM and canvas (`getElementById`, `textContent`, `classList`, `style`, drawing calls, `scrollIntoView`). An element is a value with an identity and a class list, and the displayed text and the delay are returned values.
- Scheduling is left out (`setTimeout`, `requestAnimationFrame`, event wiring): `Tick` is one call of the timer callback.
- Typing.TypingEffect: `charIndex` is an unbounded integer. The JavaScript number stays far inside its exact-integer range, because the valid-state invariant bounds it by a text's length.
- Floating-point work is left out: node positions, the pulse phase and `Math.sin`, the progress of the edges, and the easing and formatting of `animateValue`. The scroll offset is a real number.
- `Math.random` is left out, and with it `createParticles` and the initial pulse and progress values.
- The bodies of `animateCounters`, `animateSkillBars` and `animateHeroStats` are left out; a firing records which of them would start. The browser decides when to deliver an entry (the `threshold: 0.3` option); the script reads only each entry's `isIntersecting`, which the model takes as given.
- The resize handler, the smooth-scroll anchors, and the modal and form handlers are left out. They are one-line DOM updates with no logic of their own.
- ScrollReveal.HandleEntry: an entry fires only if its target is still observed, which is the corrected behaviour under "Findings". The script itself tests only `isIntersecting`, as `HandleEntriesAsWritten` models. The two agree whenever no two intersecting entries of one batch share a target (`ScrollReveal.AsWrittenMatchesGuarded`); on a batch where two do, the page fires that target twice and `Callback` fires it once. Across batches the browser delivers no entry for a target that is no longer observed; the model does not capture the browser's side of this.
- ScrollReveal.RevealObserver.Callback: runs the guarded `HandleEntries`, not the script's unguarded loop. On a batch with two intersecting entries for one observed target the page fires it twice and `Callback` fires it once; on every other batch of observed targets the two agree (`ScrollReveal.AsWrittenMatchesGuarded`).
- Typing.Step: stated for any list of texts. The rules for valid states and whole cycles assume all texts are non-empty, which holds for the page's five (`Typing.TextsNonEmpty`).

## Findings

| source | as written | input that shows it | evidently intended | confidence | as-written member | corrected member |
|---|---|---|---|---|---|---|
| script.js:13-23 | the callback fires every intersecting entry of a batch; `unobserve` stops later batches but not the rest of the current one | one batch with two intersecting entries for one observed `hero-card` element (it crossed the threshold twice before the callback ran): skill bars and hero stats start twice | each element fires once: skip entries whose target has already been unobserved | low: needs two entries for one target in one batch; not executed | ScrollReveal.RepeatedEntryFiresTwice | ScrollReveal.HandleEntriesValid |
