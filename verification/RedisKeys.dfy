/** The counters that quotas are tracked with in Redis: their keys and the time windows they cover
    (relay-quotas/src/redis.rs, `RedisQuota`). */
module RedisKeys {
  import opened Wrappers
  import opened Quotas
  import opened Decimals
  import opened Multiples

  const GRACE: nat := 60

  // ----- Windows -------------------------------------------------------------------------------------

  /** The offset of the windows of an organization, which spreads them over time. */
  function Shift(organization: nat, window: nat): nat
    requires window > 0
  {
    organization % window
  }

  /** The number of the window that a timestamp lies in. The subtraction is unsigned. */
  function Slot(organization: nat, window: nat, timestamp: nat): nat
    requires window > 0 && timestamp >= Shift(organization, window)
  {
    (timestamp - Shift(organization, window)) / window
  }

  /** The timestamp at which the next window starts. */
  function Expiry(organization: nat, window: nat, timestamp: nat): nat
    requires window > 0 && timestamp >= Shift(organization, window)
  {
    (Slot(organization, window, timestamp) + 1) * window + Shift(organization, window)
  }

  lemma DivBounds(x: nat, w: nat)
    requires w > 0
    ensures x / w * w <= x < (x / w + 1) * w
  {
    assert x == x / w * w + x % w;
  }

  /** Windows are as long as configured: a timestamp lies in the last `window` seconds before its expiry. */
  lemma ExpiryFollows(organization: nat, window: nat, timestamp: nat)
    requires window > 0 && timestamp >= Shift(organization, window)
    ensures timestamp < Expiry(organization, window, timestamp) <= timestamp + window
  {
    DivBounds(timestamp - Shift(organization, window), window);
  }

  /** No 64-bit addition or multiplication overflows if the end of the longest possible window is in range. */
  lemma ExpiryFits(organization: nat, window: nat, timestamp: nat)
    requires window > 0 && timestamp >= Shift(organization, window)
    requires timestamp + window + GRACE < U64_VALUES
    ensures var next := Slot(organization, window, timestamp) + 1;
            next * window <= next * window + Shift(organization, window) < U64_VALUES
    ensures Expiry(organization, window, timestamp) + GRACE < U64_VALUES
  {
    ExpiryFollows(organization, window, timestamp);
  }

  /** Windows end at timestamps that leave the same remainder as the organization's id, so that the windows of
      organizations are spread over time. */
  lemma WindowsAreSpread(organization: nat, window: nat, timestamp: nat)
    requires window > 0 && timestamp >= organization % window
    ensures Shift(organization, window) == organization % window
    ensures Expiry(organization, window, timestamp) % window == organization % window
  {
    RemainderOf(Slot(organization, window, timestamp) + 1, window, organization % window);
  }

  lemma MultiplyMonotone(a: nat, b: nat, w: nat)
    requires a < b && w > 0
    ensures (a + 1) * w <= b * w && a * w < b * w
  {
    assert b * w == (a + 1) * w + (b - a - 1) * w;
  }

  /** Windows tile time: two timestamps share a slot exactly if they share an expiry, and a later slot
      starts no earlier than an earlier one expires. */
  lemma WindowsTile(organization: nat, window: nat, t: nat, u: nat)
    requires window > 0 && t >= Shift(organization, window) && u >= Shift(organization, window)
    ensures Slot(organization, window, t) == Slot(organization, window, u) <==>
              Expiry(organization, window, t) == Expiry(organization, window, u)
    ensures Slot(organization, window, t) < Slot(organization, window, u) <==>
              Expiry(organization, window, t) <= u
  {
    var s, r := Slot(organization, window, t), Slot(organization, window, u);
    DivBounds(u - Shift(organization, window), window);
    if s < r {
      MultiplyMonotone(s, r, window);
      MultiplyMonotone(s + 1, r + 1, window);
    } else {
      if r < s {
        MultiplyMonotone(r + 1, s + 1, window);
      }
      assert (r + 1) * window <= (s + 1) * window;
    }
  }

  // ----- Keys ----------------------------------------------------------------------------------------

  function Subscope(id: Option<nat>): string {
    match id
    case Some(n) => Show(n)
    case None => ""
  }

  function CounterKey(id: string, organization: nat, subscope: Option<nat>, slot: nat): string {
    "quota:" + id + "{" + Show(organization) + "}" + Subscope(subscope) + ":" + Show(slot)
  }

  function RefundKey(key: string): string { "r:" + key }

  /** A string is cut in one way only at the last occurrence of a character. */
  lemma CutAtLast(a: string, x: string, b: string, y: string, c: char)
    requires a + [c] + x == b + [c] + y && c !in x && c !in y
    ensures a == b && x == y
  {
    var s := a + [c] + x;
    assert forall i :: |a| < i < |s| ==> s[i] == x[i - |a| - 1];
    assert forall i :: |b| < i < |s| ==> s[i] == y[i - |b| - 1];
    assert s[|a|] == c && s[|b|] == c;
    assert a == s[..|a|] && b == s[..|b|];
    assert x == s[|a| + 1..] && y == s[|b| + 1..];
  }

  lemma NotADigit(s: string, c: char)
    requires Digits(s) && !IsDigit(c)
    ensures c !in s
  {
  }

  lemma SubscopeDigits(a: Option<nat>, b: Option<nat>)
    ensures Digits(Subscope(a)) && Digits(Subscope(b))
    ensures Subscope(a) == Subscope(b) ==> a == b
  {
    if a.Some? {
      ShowDigits(a.value);
    }
    if b.Some? {
      ShowDigits(b.value);
    }
    if a.Some? && b.Some? && Subscope(a) == Subscope(b) {
      ShowInjective(a.value, b.value);
    }
  }

  lemma CutCounterKey(id: string, org: nat, sub: Option<nat>, slot: nat,
                      id': string, org': nat, sub': Option<nat>, slot': nat)
    requires CounterKey(id, org, sub, slot) == CounterKey(id', org', sub', slot')
    ensures id == id' && org == org' && sub == sub' && slot == slot'
  {
    ShowDigits(slot);
    ShowDigits(slot');
    ShowDigits(org);
    ShowDigits(org');
    SubscopeDigits(sub, sub');
    NotADigit(Show(slot), ':');
    NotADigit(Show(slot'), ':');
    NotADigit(Subscope(sub), '}');
    NotADigit(Subscope(sub'), '}');
    NotADigit(Show(org), '{');
    NotADigit(Show(org'), '{');
    var c, c' := "quota:" + id, "quota:" + id';
    var b, b' := c + "{" + Show(org), c' + "{" + Show(org');
    var a, a' := b + "}" + Subscope(sub), b' + "}" + Subscope(sub');
    CutAtLast(a, Show(slot), a', Show(slot'), ':');
    CutAtLast(b, Subscope(sub), b', Subscope(sub'), '}');
    CutAtLast(c, Show(org), c', Show(org'), '{');
    assert id == c[6..] && id' == c'[6..];
    ShowInjective(slot, slot');
    ShowInjective(org, org');
  }

  /** Whatever braces and colons an id contains, two counters share a key exactly if they agree in id,
      organization, subscope and slot. */
  lemma CounterKeyInjective(id: string, org: nat, sub: Option<nat>, slot: nat,
                            id': string, org': nat, sub': Option<nat>, slot': nat)
    ensures CounterKey(id, org, sub, slot) == CounterKey(id', org', sub', slot') <==>
              id == id' && org == org' && sub == sub' && slot == slot'
  {
    if CounterKey(id, org, sub, slot) == CounterKey(id', org', sub', slot') {
      CutCounterKey(id, org, sub, slot, id', org', sub', slot');
    }
  }

  /** A refund key is never a counter key. */
  lemma RefundKeysDiffer(id: string, org: nat, sub: Option<nat>, slot: nat, key: string)
    ensures CounterKey(id, org, sub, slot) != RefundKey(key)
    ensures CounterKey(id, org, sub, slot)[0] == 'q'
  {
    assert CounterKey(id, org, sub, slot)[0] == 'q';
    assert RefundKey(key)[0] == 'r';
  }

  /** The form of keys, with and without a subscope. */
  lemma KeyFormat(id: string)
    ensures CounterKey(id, 42, Some(7), 5) == "quota:" + id + "{42}7:5"
    ensures CounterKey(id, 42, None, 5) == "quota:" + id + "{42}:5"
    ensures RefundKey(id) == "r:" + id
  {
    assert Show(4) == "4" && Show(42) == "42" && Show(7) == "7" && Show(5) == "5";
    assert "quota:" + id + "{42}7:5" == "quota:" + id + "{" + "42" + "}" + "7" + ":" + "5";
    assert "quota:" + id + "{42}:5" == "quota:" + id + "{" + "42" + "}" + "" + ":" + "5";
  }
}
