# Achievement helpers of the exchange front-end, in Dafny

This project models `src/utils/achievements.ts`, the part of the exchange
front-end that turns IFO (initial farm offering) participation into
achievements of the points programme:

- **Title selection** (`getAchievementTitle`): an achievement earned in an IFO
  campaign gets the translatable title with key `IFO Shopper: %title%` and
  the campaign's own title as its `title` parameter; every other campaign
  keeps its title.
- **Claimable IFO data** (`getClaimableIfoData`), its pure part:
  1. the IFO list is filtered down to the entries that carry a campaign
     identifier;
  2. one `checkClaimStatus` call per kept IFO is built, addressed to the
     points-center contract with parameters `[account, ifo address]`;
  3. a list of point responses (`campaignId`, `numberPoints`) is reduced,
     from first to last, into achievement records: a response whose campaign
     the campaign registry does not know is dropped; otherwise the record
     takes its address from the first IFO with that campaign identifier, its
     title from the title selection, its badge from the registry entry and its
     points from the response.

Files:

- `types.dfy` (module `AchievementTypes`): the values involved. Translatable
  text, campaign metadata, IFO entries, point responses, contract calls,
  achievement records, and `Option`/`Result`.
- `achievements.dfy` (module `Achievements`): the operations, an independent
  reference definition of the reduce (`Kept`, then `Records`), and the
  lemmas connecting them.

The campaign registry is a `map<string, Campaign>`, which gives unique keys.
The IFO list, the account, the points-center address and the description
function are parameters. The reduce is a left fold over prefixes, as
`Array.prototype.reduce` runs. The `find` at line 59 can come back empty, and
destructuring `address` from `undefined` then throws. The model returns
`Failure(MissingIfo(id))` for the first response in input order where that
happens, and the reduce stops there. Point totals are unbounded integers.

## Model

| member | source | states |
|---|---|---|
| `Achievements.AchievementTitle` | src/utils/achievements.ts:16-28 | for type `'ifo'` the title is a keyed text, never a plain string: its key is `IFO Shopper: %title%` and its only parameter, `title`, is the campaign's title; for every other type it is the campaign's title unchanged |
| `Achievements.AchievementTitleKeepsCampaignTitle` | src/utils/achievements.ts:18-26 | the campaign title can always be read back from the achievement title, for both branches of the switch |
| `Achievements.AchievementTitleInjective` | src/utils/achievements.ts:16-28 | for one campaign type, two campaigns get equal achievement titles if and only if their titles are equal |
| `Achievements.IfoCampaigns` | src/utils/achievements.ts:35 | the filtered list holds exactly the IFO entries with a defined campaign identifier, each as often as in the input (equal multiplicities), and is no longer than the input |
| `Achievements.IfoCampaignsAppend` | src/utils/achievements.ts:35 | filtering commutes with concatenation, so kept entries keep their relative order |
| `Achievements.IfoCampaignsKeepsAll` | src/utils/achievements.ts:35 | a list whose entries all have campaign identifiers passes the filter unchanged |
| `Achievements.IfoCampaignsIdempotent` | src/utils/achievements.ts:35 | filtering the filtered list changes nothing |
| `Achievements.IfoCampaignsCount` | src/utils/achievements.ts:35 | the filtered list's length equals the number of positions of the IFO list whose campaign identifier is defined |
| `Achievements.ClaimStatusCalls` | src/utils/achievements.ts:38-44 | one call per IFO campaign, same length and order; call k targets the points-center address, names `checkClaimStatus` and has params `[account, campaigns[k].address]` |
| `Achievements.ClaimStatusCallsOnlyForCampaigns` | src/utils/achievements.ts:35-44 | the number of calls equals the number of IFO entries with a campaign identifier, and every call queries the address of such an entry, so none is issued for an entry without one |
| `Achievements.FirstMatch` | src/utils/achievements.ts:59 | the position found is the first entry whose campaign identifier equals the id; none is found if and only if no entry has it |
| `Achievements.Find` | src/utils/achievements.ts:59 | the IFO found is in the list, has the id as its campaign identifier and is the first entry that does (no earlier entry has that id); nothing is found if and only if no entry has it |
| `Achievements.Step` | src/utils/achievements.ts:53-72 | one step of the reduce: a response whose campaign is not in the registry leaves the accumulator unchanged; a known campaign with no IFO entry fails with that id; otherwise exactly one record is appended after the accumulator, with id, type `'ifo'`, points, badge, title, description and the found IFO's address |
| `Achievements.FindAfterFilter` | src/utils/achievements.ts:35-59 | searching the filtered IFO list finds the same entry as searching the whole IFO list |
| `Achievements.ToAchievements` | src/utils/achievements.ts:52-73 | on success there are no more records than responses, and every record's id is a registry key and its type is `'ifo'`; a failure names a registry key that no IFO campaign carries |
| `Achievements.ToAchievementsMeaning` | src/utils/achievements.ts:52-73 | the reduce succeeds if and only if every response with a known campaign has an IFO entry; then it equals one record per known-campaign response, in input order; otherwise it fails on the first response that has none |
| `Achievements.AchievementFields` | src/utils/achievements.ts:58-71 | record k corresponds to the k-th known-campaign response: id is its campaignId, type `'ifo'`, points its numberPoints, badge and title from the registry entry (title through the title selection), description from the description function, address that of the first IFO with that campaign identifier |
| `Achievements.UnknownCampaignDropped` | src/utils/achievements.ts:53-56 | appending a response whose campaign is not in the registry leaves the result of the reduce unchanged |
| `Achievements.AddressesFromIfoList` | src/utils/achievements.ts:35-59 | each record's address is that of the first entry of the unfiltered IFO list with the record's campaign identifier |
| `Achievements.GetClaimableIfoData` | src/utils/achievements.ts:34-74 | the number of calls equals the number of IFO entries with a campaign identifier; on success there are no more records than responses, and each record's id is a registry key and its address that of the first IFO entry with that id |
| `Achievements.RegistryMissScenario` | src/utils/achievements.ts:34-74 | for IFOs A("1"), B(no id), C("2") and a registry holding "1" only, two calls are issued (A, C), and the responses for "1" (500 points) and "2" yield the single record for "1" with A's address and 500 points |

## Left out

- The batched contract read (`multicallv2`, lines 46-48) and the `await` around it are network I/O through a library that is not part of this model. Its `requireSuccess: false` partial-failure behaviour is not modelled, and neither is a rejected batch.
- The list of responses folded at line 52 (`claimableIfoData`) is not defined anywhere in the source, and the claim statuses read at line 46 are never used. The model takes the responses as a parameter and does not invent how they would be derived from the statuses.
- `getAchievementDescription` (line 68) is not defined in this file. It is the parameter `describe`, a function about which nothing is assumed; like the original it receives the whole registry entry, including the campaign's identifier and description.
- `getPointCenterIfoAddress`, the points-center ABI, and the contents of `ifosList` and `campaignMap` are configuration. They are parameters.
- `numberPoints.toNumber()` (line 70) converts a big integer to a JavaScript number and throws above 2^53 - 1. Points here are unbounded integers, and that overflow error is not modelled.
- `campaignId.toString()` (line 53) is the identity, because campaign identifiers are already strings here.
- `campaign.title as string` (line 22) is a compile-time cast only. The model stores the title as it is, of whatever text form, as the `title` parameter.
- IFO fields other than `address` and `campaignId` are omitted. The response's `thresholdToClaim` field is kept in `IfoMapResponse` but never read, as in the code.
- No eligibility flag is read from the responses: every response whose campaign is in the registry produces a record.
- A campaign identifier that no IFO entry carries is not reported as an error of its own: it ends the whole computation with the exception raised by destructuring at line 59, modelled as `Failure(MissingIfo(id))`.
- `src/views/AddLiquidity/components/common.tsx` is React rendering, tooltips and localisation. Its arithmetic is done by the exchange SDK. It is not part of this model.
