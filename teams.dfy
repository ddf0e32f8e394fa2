/** The two sides of both battle engines and small value helpers they share. */
module Teams {

  /** `None` stands for Python's `None`; `Some(v)` for a present value. */
  datatype Option<+T> = None | Some(value: T)

  /** The two factions, "blue" and "red" in both engines. */
  datatype Team = Blue | Red {
    /** The opposing faction (`"red" if team == "blue" else "blue"`). */
    function Enemy(): (e: Team)
      ensures e != this
    {
      if this == Blue then Red else Blue
    }
  }

  /** A value kept per faction: the source's `{"blue": ..., "red": ...}` dictionaries. */
  datatype PerTeam<T> = PerTeam(blue: T, red: T) {
    function Get(t: Team): T {
      if t == Blue then blue else red
    }

    function Set(t: Team, v: T): (r: PerTeam<T>)
      ensures r.Get(t) == v && r.Get(t.Enemy()) == Get(t.Enemy())
    {
      if t == Blue then this.(blue := v) else this.(red := v)
    }
  }
}
