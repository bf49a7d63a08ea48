/** What a scheduler charges for service (`currency_delta`). */
module Currency {

  datatype Currency = Wall | SmTime | FgeProgress | DominantTime

  /** `dominant` is the workload's dominant-resource fraction at this share and speed. */
  function CurrencyDelta(currency: Currency, dt: real, share: real, work: real, dominant: real, weight: real): real
    requires weight != 0.0
  {
    var value := match currency
      case Wall => dt
      case SmTime => share * dt
      case FgeProgress => work
      case DominantTime => dominant * dt;
    value / weight
  }
}
