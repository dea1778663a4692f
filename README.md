# DP-3T contact factory, modelled in Dafny

This project models `ContactFactory` of the DP-3T iOS SDK. `ContactFactory` turns the Bluetooth
handshakes the SDK recorded into contact records. A handshake carries an ephemeral identifier
(EphID), a timestamp and an optional RSSI. The factory works in three steps:

1. It groups the handshakes by EphID in a dictionary. Within each group the handshakes stay in
   arrival order.
2. It keeps, per group, only the readings whose RSSI is present and strictly above the noise
   floor `badRssiThreshold = -85.0`.
3. Every group with at least one surviving reading yields one `Contact`. The contact has the
   group's EphID, no identifier and no associated known case. Its day is the day of the group's
   first handshake in the original, unfiltered order.

Everything lives in `ContactFactory.dfy`, module `ContactFactory`:

- `GroupByEphID` is the grouping loop. It is a method whose loop invariant ties the dictionary
  built so far to the specification function `Grouped` of the prefix read so far.
- `RssiValues`, `ContactFor` and `Emit` model the `compactMap` emission. `Contacts` is the whole
  factory as a function, and `ContactsFrom` is the same pipeline as a method.
- `ContactSpec` is an independent reference definition read straight off the input: each
  credible handshake stands for the contact of its EphID, dated by the first handshake of that
  EphID. `ContactsMatchSpec` proves that grouping followed by emission computes it.
- The calendar conversion `DayDate(date:)` is not visible. It is passed in as a function
  parameter `dayOf`.

The doc comment at line 13 and the `//` comment at line 28 say the threshold parameter filters
contacts. The code never reads it, and the model follows the code (`ThresholdIgnored`). Line 58
dates the contact by the first handshake of the unfiltered group, not by the first credible
reading (`DayFromUnfilteredFirst`).

## Model

| member | source | states |
|---|---|---|
| ContactFactory.WithEphID | Sources/DP3TSDK/utils/ContactFactory.swift:19-25 | the group of an EphID holds exactly the input handshakes with that EphID, and is empty exactly when the EphID does not occur |
| ContactFactory.FirstIndexOf | Sources/DP3TSDK/utils/ContactFactory.swift:58 | the index returned is the first position in the input that carries the EphID |
| ContactFactory.WithEphIDSnoc | Sources/DP3TSDK/utils/ContactFactory.swift:20-21 | reading one more handshake appends it to its own group and leaves every other group unchanged |
| ContactFactory.GroupedSnoc | Sources/DP3TSDK/utils/ContactFactory.swift:19-25 | one loop iteration appends the handshake to its existing group, or opens a new group `[handshake]` when its EphID is new |
| ContactFactory.GroupByEphID | Sources/DP3TSDK/utils/ContactFactory.swift:16-25 | the loop builds exactly the dictionary `Grouped` of the whole input |
| ContactFactory.WithEphIDKeepsOrder | Sources/DP3TSDK/utils/ContactFactory.swift:19-21 | each group is a subsequence of the input, so arrival order is kept |
| ContactFactory.WithEphIDCount | Sources/DP3TSDK/utils/ContactFactory.swift:19-25 | a group holds every copy of each handshake with its EphID, and no handshake with another EphID |
| ContactFactory.GroupsPartitionInput | Sources/DP3TSDK/utils/ContactFactory.swift:16-25 | the dictionary's keys are the input's EphIDs; each group is non-empty, holds only its key's handshakes, in input order; every handshake lands in its own EphID's group as often as it was recorded |
| ContactFactory.WithEphIDHead | Sources/DP3TSDK/utils/ContactFactory.swift:58 | the first element of a group is the first handshake of the input with that EphID |
| ContactFactory.CredibleBoundary | Sources/DP3TSDK/utils/ContactFactory.swift:33-34 | `IsCredible`, the two guards with the threshold -85.0 of line 10: an absent RSSI and an RSSI of exactly -85.0 are noise; -84.9 is credible |
| ContactFactory.RssiValues | Sources/DP3TSDK/utils/ContactFactory.swift:32-36 | the readings kept are exactly the `(timestamp, rssi)` pairs of the group's credible handshakes, no more of them than the group has handshakes, all strictly above -85.0; the list is empty exactly when no handshake of the group is credible |
| ContactFactory.ContactFor | Sources/DP3TSDK/utils/ContactFactory.swift:27-60 | a group yields a contact exactly when one of its handshakes is credible; that contact carries the group's EphID, identifier and associated known case nil, and the day of the group's first handshake, credible or not |
| ContactFactory.Emit | Sources/DP3TSDK/utils/ContactFactory.swift:27 | every contact collected from the dictionary is the one its own EphID's group yields, and a group's EphID appears among the contacts exactly when the group has a credible handshake |
| ContactFactory.ContactsMatchSpec | Sources/DP3TSDK/utils/ContactFactory.swift:15-62 | `Contacts`, the whole factory as a function: grouping then emission yields exactly one contact per EphID with a credible handshake, dated by that EphID's first handshake in input order |
| ContactFactory.ContactsFrom | Sources/DP3TSDK/utils/ContactFactory.swift:15-62 | the result has nil identifier and known case everywhere, only EphIDs from the input, at most one contact per EphID, a contact for an EphID iff one of its handshakes has RSSI > -85.0, and each day taken from the EphID's first handshake |
| ContactFactory.ThresholdIgnored | Sources/DP3TSDK/utils/ContactFactory.swift:15 | the result does not depend on `contactThreshold` |
| ContactFactory.EmptyInput | Sources/DP3TSDK/utils/ContactFactory.swift:16-27 | no handshakes give no contacts |
| ContactFactory.DayFromUnfilteredFirst | Sources/DP3TSDK/utils/ContactFactory.swift:58 | a group whose first handshake has no RSSI is still dated by that handshake, not by the later credible one |
| ContactFactory.TwoIdentifierScenario | Sources/DP3TSDK/utils/ContactFactory.swift:32-59 | with readings -60, -90 and -50 for one EphID and a missing RSSI for another, only the first EphID yields a contact, dated by its first handshake |
| ContactFactory.TwoIdentifierSpec | Sources/DP3TSDK/utils/ContactFactory.swift:32-59 | the reference definition gives the same single contact on that input |

## Left out

- The mean RSSI and the per-window means (lines 40-55) are left out. They are computed and then
  discarded, so they affect neither which contacts are emitted nor their fields. They are also
  floating-point averages. Line 45 steps each window start by `index` seconds rather than
  minutes, so those windows overlap; this dead code is not modelled at all.
- `DP3TCryptoModule.getEpochStart` and `CryptoConstants.secondsPerEpoch` are left out. They are
  not part of this model and feed only the dead statistics.
- `CryptoConstants.contactsThreshold` is not part of this model. It is only the default of the
  unused parameter.
- `DayDate(date:)` is not part of this model. Its calendar and time-zone conversion is the
  parameter `dayOf`, and the model assumes nothing about it.
- Timestamps are modelled as integers. Swift's `Date` is a floating-point number of seconds; the
  factory only copies it and passes it to `DayDate`.
- RSSI values are modelled as exact reals. Swift compares IEEE doubles, and a decimal RSSI within
  one ulp above -85.0 (such as -84.99999999999999999) rounds to -85.0 there and is noise. NaN and
  infinite RSSI values are not modelled; Swift's `>` treats a NaN RSSI as not credible.
- RssiValues: the contract states which readings are kept but not their order. Only the dropped
  statistics at lines 40-55 read the readings themselves; line 38 tests the list for emptiness and hands its first element to them.
- The order of the returned array is left out. It comes from iterating a Swift `Dictionary`,
  whose order is unspecified, so the result is modelled as a set. No contact is lost this way,
  since at most one contact exists per EphID.
- The types of `Contact.identifier` and `Contact.associatedKnownCase` are not part of this model.
  Both are modelled as `Option<int>`, and the factory always sets them to `None`.
- `HandshakeModel` and `Contact` persistence, and Bluetooth collection, are outside the factory.
