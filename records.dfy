/** The per-fund statistics one successful fetch yields: a display name, the
    profitability and volatility of four look-back horizons, and the Sharpe ratio
    since inception. A missing number (JSON null, pandas NaN) is `None`. */
module Records {
  import opened Wrappers

  /** The look-back windows of SCORE_OPTIONS: 12, 36 and 60 months, and since inception. */
  datatype Horizon = Months12 | Months36 | Months60 | Begin

  datatype Stats = Stats(profitability: Option<real>, volatility: Option<real>)

  datatype FundRecord = FundRecord(
    name: string,
    last12: Stats,
    last36: Stats,
    last60: Stats,
    sinceBegin: Stats,
    sharpeRatio: Option<real>)
  {
    /** The statistics of one horizon (the `timeframe` entry of the response). */
    function At(h: Horizon): Stats {
      match h
      case Months12 => last12
      case Months36 => last36
      case Months60 => last60
      case Begin => sinceBegin
    }
  }

  /** The suffix a horizon has in column names such as `profitability_60m`. */
  function HorizonName(h: Horizon): string {
    match h
    case Months12 => "12m"
    case Months36 => "36m"
    case Months60 => "60m"
    case Begin => "begin"
  }

  /** SCORE_TYPE read back as a horizon: exactly the four SCORE_OPTIONS name a
      column, and any other text names none. */
  function ParseHorizon(scoreType: string): (r: Option<Horizon>)
    ensures r.Some? ==> HorizonName(r.value) == scoreType
    ensures r.None? ==> forall h :: HorizonName(h) != scoreType
  {
    if scoreType == "12m" then Some(Months12)
    else if scoreType == "36m" then Some(Months36)
    else if scoreType == "60m" then Some(Months60)
    else if scoreType == "begin" then Some(Begin)
    else None
  }
}
