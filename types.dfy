/** The values that the achievement helpers consume and produce: IFO
    descriptors from the IFO list, campaign metadata from the campaign
    registry, the per-campaign point responses, the contract calls handed to
    the batched reader, and the achievement records shown to the user. */
module AchievementTypes {

  datatype Option<+T> = None | Some(value: T)

  datatype Result<+T, +E> = Success(value: T) | Failure(error: E)

  /** Text for the user: a literal string, or a translation key together with
      the parameters substituted into it when it is rendered. A parameter may
      itself be any translatable text. */
  datatype TranslatableText =
    | Literal(text: string)
    | Keyed(key: string, data: map<string, TranslatableText>)

  /** Campaign metadata as the registry holds it. `kind` is the campaign's
      type tag (`'ifo'` or another campaign type). The whole record is what
      the description function receives. */
  datatype Campaign = Campaign(
    id: string,
    kind: string,
    title: TranslatableText,
    description: TranslatableText,
    badge: string)

  /** One entry of the IFO list: the IFO contract's address and, when the IFO
      takes part in the points programme, its campaign identifier. */
  datatype Ifo = Ifo(address: string, campaignId: Option<string>)

  /** One point response for a campaign. Point totals are mathematical
      integers here. */
  datatype IfoMapResponse = IfoMapResponse(thresholdToClaim: string, campaignId: string, numberPoints: int)

  /** One request of a batched contract read: target address, contract
      method name and positional parameters. */
  datatype ContractCall = ContractCall(address: string, name: string, params: seq<string>)

  /** The record the achievements list is made of. `kind` is its type tag. */
  datatype Achievement = Achievement(
    address: string,
    id: string,
    kind: string,
    title: TranslatableText,
    description: TranslatableText,
    badge: string,
    points: int)

  /** Destructuring the IFO that `find` did not find throws; the campaign
      identifier that had no IFO entry is kept. */
  datatype Error = MissingIfo(campaignId: string)
}
