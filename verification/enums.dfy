/** The enumerations of `constants/enums.py`, as datatypes. */
module Enums {

  /** Terrain of one grid cell. */
  datatype FieldType = Grass | Forest | Water | Urban | Path | Buildings

  /** Marker of the object layer; an empty cell (`None` in the source) is `Nothing`. */
  datatype ObjectType = Nothing | HunterMark | FoxDen | RabbitDen

  /** Part of the day an hour belongs to. */
  datatype DayPart = Night | Day | Dawn | Dusk

  /** Granularity of one simulation tick. */
  datatype TimeStep = Hourly | Every2Hours | Every3Hours | DayPartStep

  /**
   * Kind of a bounded random draw. The source's `match` has a default
   * branch for any value that is none of the three kinds; `Unrecognized`
   * stands for such a value.
   */
  datatype DistributionType = Uniform | Normal | Exponential | Unrecognized(code: int)

  datatype Sex = Male | Female
}
