/** Concrete runs of the setters from the reset state. */
module Daikin468Scenarios {
  import opened Daikin468Constants
  import opened Daikin468

  /** Asking for 5 degrees gives Cool's floor of 18 in Cool and the general
      floor of 10 in Heat; asking for 99 gives 32 in either. */
  lemma TemperatureClamps()
    ensures GetTemp(SetTemp(Reset(), 5)) == 18
    ensures GetTemp(SetTemp(SetMode(Reset(), Heat), 5)) == 10
    ensures GetTemp(SetTemp(Reset(), 99)) == 32
    ensures GetTemp(SetTemp(SetMode(Reset(), Heat), 99)) == 32
  {
  }

  /** 15 degrees in Heat is raised to 18 by switching to Cool, and switching
      back to Heat does not lower it again. */
  lemma ModeSwitchReclamps()
    ensures var heat15 := SetTemp(SetMode(Reset(), Heat), 15);
      && GetTemp(heat15) == 15
      && GetTemp(SetMode(heat15, Cool)) == 18
      && GetTemp(SetMode(SetMode(heat15, Cool), Heat)) == 18
  {
  }

  /** The undefined mode 7 becomes Auto and the undefined fan speed 0xF becomes FanAuto. */
  lemma InvalidCodesCoerce()
    ensures GetMode(SetMode(Reset(), 7)) == Auto
    ensures GetFan(SetFan(Reset(), 0xF)) == FanAuto
  {
  }

  /** With vertical swing on, asking for the undefined position 3 keeps it on. */
  lemma InvalidSwingIgnored()
    ensures var on := SetSwingVertical(Reset(), SwingOn);
      && GetSwingVertical(on) == SwingOn
      && SetSwingVertical(on, 3) == on
  {
  }
}
