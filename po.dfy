/**
 * The `Po` combatant: a name, a health counter and an attack strength,
 * with an attack that lowers the target's health in place.
 */
module Combat {
  import opened Wrappers
  import opened Decimal

  class Po {
    var name: string
    var health: int
    var attackPower: int

    /** A fresh combatant starts at 100 health with attack strength 20. */
    constructor (name: string)
      ensures this.name == name && health == 100 && attackPower == 20
    {
      this.name := name;
      health := 100;
      attackPower := 20;
    }

    /**
     * `damage` is the random draw between 0 and the attack strength, both
     * ends included.  Only the target's health changes, by exactly `damage`,
     * and it is not clamped at zero; when the target is the attacker
     * itself the attacker's own health drops.
     */
    method Attack(target: Po, damage: int)
      requires 0 <= damage <= attackPower
      modifies target
      ensures target.health == old(target.health) - damage
      ensures target.health <= old(target.health)
      ensures target.name == old(target.name) && target.attackPower == old(target.attackPower)
      ensures name == old(name) && attackPower == old(attackPower)
      ensures target != this ==> health == old(health)
      ensures !old(target.IsAlive()) ==> !target.IsAlive()
    {
      target.health := target.health - damage;
    }

    /**
     * Alive while health is positive, that is, while the health `str(p)`
     * shows is neither `0` nor negative.
     */
    predicate IsAlive()
      reads this
      ensures IsAlive() <==> health > 0
      ensures IsAlive() <==> IntToString(health) != "0" && IntToString(health)[0] != '-'
    {
      health > 0
    }

    /**
     * `str(p)`: the name, a colon, the health in decimal and ` HP`.  The
     * middle part is in the canonical form and reads back as the health,
     * so by `CanonicalIntIsText` it is the only such text of that number.
     */
    function ToString(): (r: string)
      reads this
      ensures r == name + ": " + IntToString(health) + " HP"
      ensures |r| >= |name| + 6
      ensures r[..|name|] == name && r[|name|..|name| + 2] == ": " && r[|r| - 3..] == " HP"
      ensures CanonicalInt(r[|name| + 2..|r| - 3])
      ensures ParseInt(r[|name| + 2..|r| - 3]) == Some(health)
    {
      var text := IntToString(health);
      var r := name + ": " + text + " HP";
      assert r[|name| + 2..|r| - 3] == text;
      IntRoundTrip(health);
      r
    }
  }

  /**
   * Six full-strength blows from a fresh attacker leave a fresh target at
   * -20 health: there is no floor at zero.
   */
  method SixBlows() returns (health: int, alive: bool)
    ensures health == -20 && !alive
  {
    var a := new Po("a");
    var b := new Po("b");
    var n := 0;
    while n < 6
      invariant 0 <= n <= 6
      invariant a.attackPower == 20 && b.health == 100 - 20 * n
    {
      a.Attack(b, 20);
      n := n + 1;
    }
    health := b.health;
    alive := b.IsAlive();
  }

  /** A combatant that attacks itself loses the damage from its own health. */
  method SelfAttack(damage: int) returns (health: int)
    requires 0 <= damage <= 20
    ensures health == 100 - damage
  {
    var a := new Po("a");
    a.Attack(a, damage);
    health := a.health;
  }
}
